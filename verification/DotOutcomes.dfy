/** What the ownership-transfer flows come to, in terms of fuses, fields and answers only. */
module DotOutcomes {
  import opened Words
  import opened Wrappers
  import opened Dot
  import opened DotSafety

  ghost predicate AllWork(plan: FaultPlan) { forall t: nat :: plan(t).Works? }

  ghost predicate SomeSet(h: KeyHash) { exists i | 0 <= i < 12 :: h[i] != 0 }

  /** The fuse value keys are derived from: the odd count of the current lock period. */
  lemma DerivationValue(n: nat)
    ensures Derivation(n) == n / 2 * 2 + 1
  {
  }

  /** An owner blob of a manifest, field by field, sealed for a count. */
  ghost predicate OwnerBlob(f: Flash, cak: KeyHash, lak: KeyHash, count: nat) {
    && f.Holds?
    && f.blob.fields.version == 1 && f.blob.fields.unlockMethod == 1
    && f.blob.fields.cak == cak && f.blob.fields.lak == lak
    && f.blob.tag == Mac(IDevId, count / 2 * 2 + 1, f.blob.fields)
  }

  // ----- boots -----

  /** Every answer of a cold boot, and what it writes when writes work. */
  lemma BootAnswers(s: State, kt: KeyType, fuseOwner: Option<KeyHash>, plan: FaultPlan)
    requires AllWork(plan)
    ensures var b := ColdBoot(s, kt, fuseOwner, plan);
            && (s.flash.NoFlash? ==> b == Boot(s, Success(fuseOwner)))
            && (s.flash.Blank? && s.enabled && s.burned % 2 == 1 ==> b == Boot(s, Failure(())))
            && (s.flash.Blank? && !(s.enabled && s.burned % 2 == 1) ==> b == Boot(s, Success(fuseOwner)))
            && (s.flash.Holds? ==>
                  var fields := s.flash.blob.fields;
                  if s.flash.blob.tag != Mac(kt, s.burned / 2 * 2 + 1, fields) then b == Boot(s, Failure(()))
                  else if !s.enabled then b == Boot(s, Success(fuseOwner))
                  else if s.burned % 2 == 1
                  then b == Boot(s, Success(if SomeSet(fields.cak) then Some(fields.cak) else fuseOwner))
                  else if !SomeSet(fields.cak) || !SomeSet(fields.lak) then b == Boot(s, Success(fuseOwner))
                  else if s.burned >= 256 then b == Boot(s, Failure(()))
                  else b == Boot(s.(burned := s.burned + 1, clock := s.clock + 1), Success(fuseOwner)))
  {
    DerivationValue(s.burned);
    Exec1(s, Burn(s.burned), plan);
    if s.flash.Holds? {
      ZeroIff(s.flash.blob.fields.cak);
      ZeroIff(s.flash.blob.fields.lak);
    }
  }

  lemma ZeroIff(h: KeyHash)
    ensures IsZero(h) <==> !SomeSet(h)
  {
  }

  // ----- single commands -----

  lemma OnlyCommand(sec: Section, cmd: byte, s: State, plan: FaultPlan)
    requires s.enabled && cmd <= 4
    ensures RunCommands(sec, [cmd], s, plan) == Exec(s, Program(sec, cmd, s.burned), plan)
  {
    assert [cmd][1..] == [];
    var r := Exec(s, Program(sec, cmd, s.burned), plan);
    assert RunCommands(sec, [], r.state, plan) == Run(r.state, true);
  }

  /** How far each completed command moves the count. */
  lemma CommandCounts(sec: Section, cmd: byte, s: State, plan: FaultPlan)
    requires s.enabled && RunCommands(sec, [cmd], s, plan).ok
    ensures var n, after := s.burned, RunCommands(sec, [cmd], s, plan).state.burned;
            && (cmd == 0 ==> after == n)
            && (cmd == 1 || cmd == 4 ==> after == if n % 2 == 0 then n + 1 else n)
            && (cmd == 2 ==> after == if n % 2 == 1 then n + 1 else n)
            && (cmd == 3 ==> after == if n < sec.minFuseCount then n + 2 else n)
            && cmd <= 4
  {
    if cmd <= 4 {
      OnlyCommand(sec, cmd, s, plan);
      CommandEffect(sec, cmd, s, plan);
    }
  }

  /** An unknown command stops the run with an error and writes nothing. */
  lemma UnknownCommand(sec: Section, cmds: seq<byte>, s: State, plan: FaultPlan)
    requires s.enabled && cmds != [] && cmds[0] > 4
    ensures RunCommands(sec, cmds, s, plan) == Run(s, false)
  {
  }

  lemma LockRuns(sec: Section, cmd: byte, s: State, plan: FaultPlan)
    requires s.enabled && !s.flash.NoFlash? && s.burned < 256 && AllWork(plan)
    requires Advance(sec, cmd, s.burned) == 1 && cmd <= 4
    ensures RunCommands(sec, [cmd], s, plan)
         == Run(s.(burned := s.burned + 1, flash := Holds(NewBlob(sec, cmd, s.burned)), clock := s.clock + 2), true)
  {
    OnlyCommand(sec, cmd, s, plan);
    Exec2(s, Write(NewBlob(sec, cmd, s.burned)), Burn(s.burned), plan);
  }

  /** LOCK makes the section's CAK the owner of the next boot, and that boot writes nothing. */
  lemma LockOutcome(sec: Section, s: State, plan: FaultPlan, fuseOwner: Option<KeyHash>)
    requires s.enabled && s.burned % 2 == 0 && s.burned < 256 && !s.flash.NoFlash? && AllWork(plan)
    ensures var r := RunCommands(sec, [1], s, plan);
            && r.ok && r.state.burned == s.burned + 1
            && OwnerBlob(r.state.flash, sec.cak, sec.lak, s.burned + 1)
            && ColdBoot(r.state, IDevId, fuseOwner, plan)
               == Boot(r.state, Success(if SomeSet(sec.cak) then Some(sec.cak) else fuseOwner))
  {
    LockRuns(sec, 1, s, plan);
    BootAnswers(RunCommands(sec, [1], s, plan).state, IDevId, fuseOwner, plan);
  }

  /** DISABLE locks the device without an owner of its own. */
  lemma DisableOutcome(sec: Section, s: State, plan: FaultPlan, fuseOwner: Option<KeyHash>)
    requires s.enabled && s.burned % 2 == 0 && s.burned < 256 && !s.flash.NoFlash? && AllWork(plan)
    ensures var r := RunCommands(sec, [4], s, plan);
            && r.ok && r.state.burned == s.burned + 1
            && OwnerBlob(r.state.flash, ZERO_HASH, sec.lak, s.burned + 1)
            && ColdBoot(r.state, IDevId, fuseOwner, plan) == Boot(r.state, Success(fuseOwner))
  {
    LockRuns(sec, 4, s, plan);
    BootAnswers(RunCommands(sec, [4], s, plan).state, IDevId, fuseOwner, plan);
  }

  /** UNLOCK leaves an unlocked device that the next boot does not lock again. */
  lemma UnlockOutcome(sec: Section, s: State, plan: FaultPlan, fuseOwner: Option<KeyHash>)
    requires s.enabled && s.burned % 2 == 1 && s.burned < 256 && !s.flash.NoFlash? && AllWork(plan)
    ensures var r := RunCommands(sec, [2], s, plan);
            && r.ok && r.state.burned == s.burned + 1
            && OwnerBlob(r.state.flash, ZERO_HASH, sec.lak, s.burned + 1)
            && ColdBoot(r.state, IDevId, fuseOwner, plan) == Boot(r.state, Success(fuseOwner))
  {
    LockRuns(sec, 2, s, plan);
    BootAnswers(RunCommands(sec, [2], s, plan).state, IDevId, fuseOwner, plan);
  }

  lemma RotateRuns(sec: Section, s: State, plan: FaultPlan)
    requires s.enabled && !s.flash.NoFlash? && s.burned + 2 <= 256 && AllWork(plan)
    requires s.burned < sec.minFuseCount
    ensures RunCommands(sec, [3], s, plan)
         == Run(s.(burned := s.burned + 2, flash := Holds(NewBlob(sec, 3, s.burned)), clock := s.clock + 3), true)
  {
    var n, blob := s.burned, NewBlob(sec, 3, s.burned);
    OnlyCommand(sec, 3, s, plan);
    Exec3(s, Burn(n), Burn(n + 1), Write(blob), plan);
    Exec2(Do(s, Burn(n), plan).state, Burn(n + 1), Write(blob), plan);
  }

  /** A locked device with an owner blob boots with its CAK and writes nothing. */
  lemma OwnedBoot(s: State, cak: KeyHash, lak: KeyHash, plan: FaultPlan, fuseOwner: Option<KeyHash>)
    requires s.enabled && s.burned % 2 == 1 && AllWork(plan)
    requires OwnerBlob(s.flash, cak, lak, s.burned) && SomeSet(cak)
    ensures ColdBoot(s, IDevId, fuseOwner, plan) == Boot(s, Success(Some(cak)))
  {
    BootAnswers(s, IDevId, fuseOwner, plan);
  }

  /** An unlocked one is locked by its first boot and owned from the second on. */
  lemma PendingBoots(s: State, cak: KeyHash, lak: KeyHash, plan: FaultPlan, fuseOwner: Option<KeyHash>)
    requires s.enabled && s.burned % 2 == 0 && s.burned < 256 && AllWork(plan)
    requires OwnerBlob(s.flash, cak, lak, s.burned) && SomeSet(cak) && SomeSet(lak)
    ensures var b := ColdBoot(s, IDevId, fuseOwner, plan);
            && b.owner == Success(fuseOwner) && b.state.burned == s.burned + 1
            && ColdBoot(b.state, IDevId, fuseOwner, plan) == Boot(b.state, Success(Some(cak)))
  {
    BootAnswers(s, IDevId, fuseOwner, plan);
    OwnedBoot(ColdBoot(s, IDevId, fuseOwner, plan).state, cak, lak, plan, fuseOwner);
  }

  /** ROTATE moves two fuses on and hands the device to the section's CAK: at once if it was
      locked, after one more boot, which locks it, if it was not. */
  lemma RotateOutcome(sec: Section, s: State, plan: FaultPlan, fuseOwner: Option<KeyHash>)
    requires s.enabled && s.burned + 2 <= 256 && s.burned < sec.minFuseCount && !s.flash.NoFlash? && AllWork(plan)
    requires SomeSet(sec.cak) && SomeSet(sec.lak)
    ensures var r := RunCommands(sec, [3], s, plan);
            && r.ok && r.state.burned == s.burned + 2
            && OwnerBlob(r.state.flash, sec.cak, sec.lak, s.burned + 2)
            && (s.burned % 2 == 1 ==>
                  ColdBoot(r.state, IDevId, fuseOwner, plan) == Boot(r.state, Success(Some(sec.cak))))
            && (s.burned % 2 == 0 && s.burned + 2 < 256 ==>
                  var b := ColdBoot(r.state, IDevId, fuseOwner, plan);
                  && b.owner == Success(fuseOwner) && b.state.burned == s.burned + 3
                  && ColdBoot(b.state, IDevId, fuseOwner, plan) == Boot(b.state, Success(Some(sec.cak))))
  {
    RotateRuns(sec, s, plan);
    var t := RunCommands(sec, [3], s, plan).state;
    if s.burned % 2 == 1 {
      OwnedBoot(t, sec.cak, sec.lak, plan, fuseOwner);
    } else if s.burned + 2 < 256 {
      PendingBoots(t, sec.cak, sec.lak, plan, fuseOwner);
    }
  }

  // ----- override, recovery, reseal -----

  /** An override leaves an unlocked device without owner that no later boot locks. */
  lemma OverrideOutcome(s: State, kt: KeyType, plan: FaultPlan, fuseOwner: Option<KeyHash>)
    requires s.burned % 2 == 1 && s.burned < 256 && !s.flash.NoFlash? && AllWork(plan)
    ensures var r := Override(s, s.burned, kt, plan);
            && r.ok && r.state.burned == s.burned + 1 && r.state.flash.Holds?
            && r.state.flash.blob.fields.version == 1 && r.state.flash.blob.fields.unlockMethod == 0
            && !SomeSet(r.state.flash.blob.fields.cak) && !SomeSet(r.state.flash.blob.fields.lak)
            && ColdBoot(r.state, kt, fuseOwner, plan) == Boot(r.state, Success(fuseOwner))
  {
    Exec2(s, Burn(s.burned), Write(Seal(kt, s.burned + 1, EMPTY_FIELDS)), plan);
    BootAnswers(Override(s, s.burned, kt, plan).state, kt, fuseOwner, plan);
  }

  /** A recovery accepts exactly a blob sealed for the snapshot, and writes that blob. */
  lemma RecoverOutcome(s: State, snapshot: nat, backup: Blob, kt: KeyType, plan: FaultPlan)
    requires !s.flash.NoFlash? && AllWork(plan)
    ensures Recover(s, snapshot, backup, kt, plan)
         == if backup.tag == Mac(kt, snapshot / 2 * 2 + 1, backup.fields)
            then Run(s.(flash := Holds(backup), clock := s.clock + 1), true) else Run(s, false)
  {
    DerivationValue(snapshot);
    Exec1(s, Write(backup), plan);
  }

  /** A recovery blob written by the ROM opens at the current count and names nobody. */
  lemma ResealOutcome(s: State, plan: FaultPlan, fuseOwner: Option<KeyHash>)
    requires !s.flash.NoFlash? && AllWork(plan)
    ensures var r := Reseal(s, plan);
            && r.ok && OwnerBlob(r.state.flash, ZERO_HASH, ZERO_HASH, s.burned)
            && ColdBoot(r.state, IDevId, fuseOwner, plan) == Boot(r.state, Success(fuseOwner))
  {
    Exec1(s, Write(Seal(IDevId, s.burned, OwnerFields(ZERO_HASH, ZERO_HASH))), plan);
    BootAnswers(Reseal(s, plan).state, IDevId, fuseOwner, plan);
  }

  // ----- sections -----

  function Total(ws: seq<u32>): nat {
    if ws == [] then 0 else ws[0] + Total(ws[1..])
  }

  lemma {:induction false} WordSumTotal(ws: seq<u32>)
    ensures WordSum(ws) == Total(ws) % 0x1_0000_0000
  {
    if ws != [] {
      WordSumTotal(ws[1..]);
      WrapOnce(ws[0], Total(ws[1..]));
    }
  }

  lemma WrapOnce(a: nat, t: nat)
    ensures (a + t % 0x1_0000_0000) % 0x1_0000_0000 == (a + t) % 0x1_0000_0000
  {
    var q, r := t / 0x1_0000_0000, t % 0x1_0000_0000;
    var p, s := (a + r) / 0x1_0000_0000, (a + r) % 0x1_0000_0000;
    DivModUnique(a + t, 0x1_0000_0000, p + q, s);
  }

  lemma {:induction false} TotalJoin(a: seq<u32>, b: seq<u32>)
    ensures Total(a + b) == Total(a) + Total(b)
  {
    if a == [] {
      assert a + b == b;
    } else {
      TotalJoin(a[1..], b);
      assert (a + b)[1..] == a[1..] + b;
    }
  }

  function LittleEndian(a: nat, b: nat, c: nat, d: nat): nat {
    a + 0x100 * b + 0x1_0000 * c + 0x100_0000 * d
  }

  /** The words behind the magic: the checksum and everything it covers. */
  function SectionTotal(sec: Section): nat {
    var c := sec.commands;
    sec.checksum + sec.version + sec.numCommands + sec.minFuseCount
    + LittleEndian(c[0], c[1], c[2], c[3]) + LittleEndian(c[4], c[5], c[6], c[7])
    + Total(sec.cak) + Total(sec.lak) + sec.reserved
  }

  lemma TotalFive(a: u32, b: u32, c: u32, d: u32, e: u32)
    ensures Total([a, b, c, d, e]) == a + b + c + d + e
  {
    assert [a, b, c, d, e][1..] == [b, c, d, e] && [b, c, d, e][1..] == [c, d, e] && [c, d, e][1..] == [d, e];
    assert [d, e][1..] == [e] && [e][1..] == [];
    TotalOne(e);
    assert Total([d, e]) == d + Total([e]);
    assert Total([c, d, e]) == c + Total([d, e]);
    assert Total([b, c, d, e]) == b + c + d + e;
  }

  lemma TotalOne(a: u32)
    ensures Total([a]) == a
  {
    assert [a][1..] == [];
  }

  lemma TotalParts(head: seq<u32>, cak: seq<u32>, lak: seq<u32>, last: u32)
    ensures Total(head + cak + lak + [last]) == Total(head) + Total(cak) + Total(lak) + last
  {
    TotalJoin(head + cak + lak, [last]);
    TotalJoin(head + cak, lak);
    TotalJoin(head, cak);
    TotalOne(last);
  }

  /** A section verifies exactly when its words add up to all ones. */
  lemma ChecksumTotal(sec: Section)
    ensures ChecksumOk(sec) <==> SectionTotal(sec) % 0x1_0000_0000 == 0xFFFF_FFFF
  {
    var c := sec.commands;
    var w, v := FromBytes(c[0], c[1], c[2], c[3]), FromBytes(c[4], c[5], c[6], c[7]);
    TotalFive(sec.version, sec.numCommands, sec.minFuseCount, w, v);
    TotalParts([sec.version, sec.numCommands, sec.minFuseCount, w, v], sec.cak, sec.lak, sec.reserved);
    var words := [sec.checksum] + PayloadWords(sec);
    TotalJoin([sec.checksum], PayloadWords(sec));
    TotalOne(sec.checksum);
    assert SectionTotal(sec) == Total(words);
    WordSumTotal(words);
  }

  ghost predicate Conflicting(sec: Section)
    requires sec.numCommands <= 8
  {
    && (exists i | 0 <= i < sec.numCommands :: sec.commands[i] == 1 || sec.commands[i] == 4)
    && (exists i | 0 <= i < sec.numCommands :: sec.commands[i] == 2)
  }

  ghost predicate Refused(sec: Section) {
    || SectionTotal(sec) % 0x1_0000_0000 != 0xFFFF_FFFF || sec.version != 1 || sec.numCommands > 8
    || Conflicting(sec)
  }

  /** A section with another magic is passed over; one with a bad checksum, version, count or a
      lock together with an unlock is refused; both without a write; any other is executed. */
  lemma SectionOutcome(sec: Section, s: State, plan: FaultPlan)
    ensures RunManifest(sec, s, plan)
         == if sec.magic != 0x444F_5443 then Run(s, true)
            else if Refused(sec) then Run(s, false)
            else RunCommands(sec, sec.commands[..sec.numCommands], s, plan)
  {
    ChecksumTotal(sec);
    if sec.numCommands <= 8 {
      var cmds := sec.commands[..sec.numCommands];
      assert forall i | 0 <= i < sec.numCommands :: cmds[i] == sec.commands[i];
      assert Conflicting(sec) <==> Locks(cmds) && UNLOCK in cmds;
    }
  }
}
