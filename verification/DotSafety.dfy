/** What every sequence of ownership-transfer flows keeps. */
module DotSafety {
  import opened Words
  import opened Dot

  // ----- the counter -----

  predicate BurnsBelow(ops: seq<Op>, hi: nat) {
    forall op | op in ops && op.Burn? :: op.snapshot < hi
  }

  /** Writes only ever raise the count, and never past 256 or their own snapshots. */
  lemma {:induction false} ExecRange(s: State, ops: seq<Op>, plan: FaultPlan, hi: nat)
    requires s.burned <= hi && BurnsBelow(ops, hi)
    ensures var t := Exec(s, ops, plan).state;
            s.burned <= t.burned <= hi && t.burned <= Max(s.burned, TOTAL_FUSES) && t.enabled == s.enabled
    decreases |ops|
  {
    if ops != [] {
      assert ops[0] in ops;
      var r := Do(s, ops[0], plan);
      if r.ok {
        assert forall op | op in ops[1..] :: op in ops;
        ExecRange(r.state, ops[1..], plan, hi);
      }
    }
  }

  /** How far one manifest can push the counter: `b` is the settled level. */
  predicate Within(b: nat, unlocks: bool, n: nat) {
    n <= b || (n == b + 1 && Odd(n) != unlocks)
  }

  lemma {:induction false} CommandsWithin(
    sec: Section, cmds: seq<byte>, s: State, plan: FaultPlan, b: nat, unlocks: bool)
    requires s.burned <= TOTAL_FUSES && sec.minFuseCount < b
    requires Within(b, unlocks, s.burned)
    requires if unlocks then !Locks(cmds) else UNLOCK !in cmds
    ensures var t := RunCommands(sec, cmds, s, plan).state;
            Within(b, unlocks, t.burned) && s.burned <= t.burned <= TOTAL_FUSES
    decreases |cmds|
  {
    if cmds != [] && (s.enabled || cmds[0] == NOP) && cmds[0] <= DISABLE {
      var n := s.burned;
      var ops := Program(sec, cmds[0], n);
      assert cmds[0] in cmds;
      var hi := if cmds[0] == ROTATE && n < sec.minFuseCount then n + 2 else if ops == [] then n else n + 1;
      ExecRange(s, ops, plan, hi);
      var r := Exec(s, ops, plan);
      assert Within(b, unlocks, r.state.burned);
      if r.ok {
        assert forall c | c in cmds[1..] :: c in cmds;
        CommandsWithin(sec, cmds[1..], r.state, plan, b, unlocks);
      }
    }
  }

  function Reruns(sec: Section, s: State, plan: FaultPlan, k: nat): State {
    if k == 0 then s else RunManifest(sec, Reruns(sec, s, plan, k - 1), plan).state
  }

  /** However often one manifest is re-run, and wherever each run is cut off, the
      count settles at most one above the larger of its start and the rotation target. */
  lemma {:induction false} ManifestRerunBound(sec: Section, s: State, plan: FaultPlan, k: nat)
    requires s.burned <= TOTAL_FUSES
    ensures s.burned <= Reruns(sec, s, plan, k).burned
            <= Min(TOTAL_FUSES, Max(s.burned, sec.minFuseCount + 1) + 1)
  {
    if Accepted(sec) {
      RerunsWithin(sec, s, plan, k, UNLOCK in Commands(sec));
    } else {
      RejectedRerunsIdle(sec, s, plan, k);
    }
  }

  lemma {:induction false} RerunsWithin(sec: Section, s: State, plan: FaultPlan, k: nat, unlocks: bool)
    requires Accepted(sec) && s.burned <= TOTAL_FUSES
    requires unlocks == (UNLOCK in Commands(sec))
    ensures var t := Reruns(sec, s, plan, k);
            && s.burned <= t.burned <= TOTAL_FUSES
            && Within(Max(s.burned, sec.minFuseCount + 1), unlocks, t.burned)
  {
    if k > 0 {
      RerunsWithin(sec, s, plan, k - 1, unlocks);
      var t := Reruns(sec, s, plan, k - 1);
      CommandsWithin(sec, Commands(sec), t, plan, Max(s.burned, sec.minFuseCount + 1), unlocks);
    }
  }

  lemma {:induction false} RejectedRerunsIdle(sec: Section, s: State, plan: FaultPlan, k: nat)
    requires !Accepted(sec)
    ensures Reruns(sec, s, plan, k) == s
  {
    if k > 0 { RejectedRerunsIdle(sec, s, plan, k - 1); }
  }

  // ----- short runs, written out -----

  lemma Exec1(s: State, a: Op, plan: FaultPlan)
    ensures Exec(s, [a], plan) == Do(s, a, plan)
  {
    assert [a][1..] == [];
    var r := Do(s, a, plan);
    assert Exec(r.state, [], plan) == Run(r.state, true);
  }

  lemma Exec2(s: State, a: Op, b: Op, plan: FaultPlan)
    ensures Exec(s, [a, b], plan)
            == var r := Do(s, a, plan); if r.ok then Do(r.state, b, plan) else r
  {
    assert [a, b][1..] == [b];
    Exec1(Do(s, a, plan).state, b, plan);
  }

  lemma Exec3(s: State, a: Op, b: Op, c: Op, plan: FaultPlan)
    ensures Exec(s, [a, b, c], plan)
            == var r := Do(s, a, plan); if r.ok then Exec(r.state, [b, c], plan) else r
  {
    assert [a, b, c][1..] == [b, c];
  }

  /** A command that completes has advanced the count as documented, and if it acted
      it has left a blob sealed for the count it arrived at. */
  lemma CommandEffect(sec: Section, cmd: byte, s: State, plan: FaultPlan)
    requires Exec(s, Program(sec, cmd, s.burned), plan).ok
    ensures Acted(s, Exec(s, Program(sec, cmd, s.burned), plan).state, Advance(sec, cmd, s.burned))
  {
    if Advance(sec, cmd, s.burned) == 1 {
      CommandEffect1(sec, cmd, s, plan);
    } else if Advance(sec, cmd, s.burned) == 2 {
      CommandEffect2(sec, cmd, s, plan);
    }
  }

  lemma CommandEffect1(sec: Section, cmd: byte, s: State, plan: FaultPlan)
    requires Advance(sec, cmd, s.burned) == 1
    requires Exec(s, Program(sec, cmd, s.burned), plan).ok
    ensures Acted(s, Exec(s, Program(sec, cmd, s.burned), plan).state, 1)
  {
    NewBlobFits(sec, cmd, s.burned);
    WriteThenBurn(s, NewBlob(sec, cmd, s.burned), plan);
  }

  lemma CommandEffect2(sec: Section, cmd: byte, s: State, plan: FaultPlan)
    requires Advance(sec, cmd, s.burned) == 2
    requires Exec(s, Program(sec, cmd, s.burned), plan).ok
    ensures Acted(s, Exec(s, Program(sec, cmd, s.burned), plan).state, 2)
  {
    NewBlobFits(sec, cmd, s.burned);
    BurnTwiceThenWrite(s, NewBlob(sec, cmd, s.burned), plan);
  }

  predicate Acted(s: State, t: State, k: nat) {
    && t.burned == s.burned + k
    && t.enabled == s.enabled
    && (t.flash.NoFlash? <==> s.flash.NoFlash?)
    && (if k == 0 then t == s else t.flash.NoFlash? || Sealed(IDevId, t))
  }

  lemma NewBlobFits(sec: Section, cmd: byte, n: nat)
    requires Advance(sec, cmd, n) > 0
    ensures Authentic(IDevId, n + Advance(sec, cmd, n), NewBlob(sec, cmd, n))
  {
  }

  /** A burn at the current count that is reported done. */
  lemma BurnDone(s: State, n: nat, plan: FaultPlan)
    requires n == s.burned && Do(s, Burn(n), plan).ok
    ensures Do(s, Burn(n), plan).state == s.(burned := n + 1, clock := s.clock + 1)
  {
  }

  /** A write that is reported done. */
  lemma WriteDone(s: State, blob: Blob, plan: FaultPlan)
    requires Do(s, Write(blob), plan).ok
    ensures Do(s, Write(blob), plan).state
         == if s.flash.NoFlash? then s else s.(flash := Holds(blob), clock := s.clock + 1)
  {
  }

  lemma ActedBy(s: State, t: State, k: nat, blob: Blob)
    requires k > 0 && t.burned == s.burned + k && t.enabled == s.enabled && Authentic(IDevId, t.burned, blob)
    requires t.flash == if s.flash.NoFlash? then NoFlash else Holds(blob)
    ensures Acted(s, t, k)
  {
  }

  lemma WriteThenBurn(s: State, blob: Blob, plan: FaultPlan)
    requires Exec(s, [Write(blob), Burn(s.burned)], plan).ok
    requires Authentic(IDevId, s.burned + 1, blob)
    ensures Acted(s, Exec(s, [Write(blob), Burn(s.burned)], plan).state, 1)
  {
    Exec2(s, Write(blob), Burn(s.burned), plan);
    WriteDone(s, blob, plan);
    var s1 := Do(s, Write(blob), plan).state;
    BurnDone(s1, s.burned, plan);
    ActedBy(s, Do(s1, Burn(s.burned), plan).state, 1, blob);
  }

  lemma BurnThenWrite(s: State, blob: Blob, plan: FaultPlan)
    requires Exec(s, [Burn(s.burned), Write(blob)], plan).ok
    requires Authentic(IDevId, s.burned + 1, blob)
    ensures Acted(s, Exec(s, [Burn(s.burned), Write(blob)], plan).state, 1)
  {
    Exec2(s, Burn(s.burned), Write(blob), plan);
    BurnDone(s, s.burned, plan);
    var s1 := Do(s, Burn(s.burned), plan).state;
    WriteDone(s1, blob, plan);
    ActedBy(s, Do(s1, Write(blob), plan).state, 1, blob);
  }

  lemma BurnTwiceThenWrite(s: State, blob: Blob, plan: FaultPlan)
    requires Exec(s, [Burn(s.burned), Burn(s.burned + 1), Write(blob)], plan).ok
    requires Authentic(IDevId, s.burned + 2, blob)
    ensures Acted(s, Exec(s, [Burn(s.burned), Burn(s.burned + 1), Write(blob)], plan).state, 2)
  {
    Exec3(s, Burn(s.burned), Burn(s.burned + 1), Write(blob), plan);
    BurnDone(s, s.burned, plan);
    BurnThenWrite(Do(s, Burn(s.burned), plan).state, blob, plan);
  }

  /** What the rejection of LOCK together with UNLOCK prevents: that pair burns two
      fuses on every run. */
  lemma LockUnlockRatchets(sec: Section, s: State, plan: FaultPlan)
    requires s.enabled && !Odd(s.burned)
    requires RunCommands(sec, [LOCK, UNLOCK], s, plan).ok
    ensures RunCommands(sec, [LOCK, UNLOCK], s, plan).state.burned == s.burned + 2
  {
    assert [LOCK, UNLOCK][1..] == [UNLOCK] && [UNLOCK][1..] == [];
    CommandEffect(sec, LOCK, s, plan);
    var t := Exec(s, Program(sec, LOCK, s.burned), plan).state;
    CommandEffect(sec, UNLOCK, t, plan);
    var u := Exec(t, Program(sec, UNLOCK, t.burned), plan);
    assert RunCommands(sec, [UNLOCK], t, plan) == RunCommands(sec, [], u.state, plan);
  }

  // ----- re-running a completed manifest -----

  predicate Settled(cmds: seq<byte>, n: nat) {
    (Locks(cmds) ==> Odd(n)) && (UNLOCK in cmds ==> !Odd(n))
  }

  lemma {:induction false} CompletedSettles(sec: Section, cmds: seq<byte>, s: State, plan: FaultPlan)
    requires s.enabled && RunCommands(sec, cmds, s, plan).ok
    requires !(Locks(cmds) && UNLOCK in cmds)
    ensures var t := RunCommands(sec, cmds, s, plan).state;
            && t.enabled && Settled(cmds, t.burned)
            && (Odd(s.burned) && UNLOCK !in cmds ==> Odd(t.burned))
            && (!Odd(s.burned) && !Locks(cmds) ==> !Odd(t.burned))
            && forall c | c in cmds :: c <= DISABLE
    decreases |cmds|
  {
    if cmds != [] {
      assert cmds == [cmds[0]] + cmds[1..];
      CommandEffect(sec, cmds[0], s, plan);
      var r := Exec(s, Program(sec, cmds[0], s.burned), plan);
      CompletedSettles(sec, cmds[1..], r.state, plan);
    }
  }

  predicate RotationDue(sec: Section, cmds: seq<byte>, n: nat) {
    ROTATE in cmds && n < sec.minFuseCount
  }

  lemma {:induction false} SettledRerun(sec: Section, cmds: seq<byte>, t: State, plan: FaultPlan)
    requires t.enabled && Settled(cmds, t.burned) && forall c | c in cmds :: c <= DISABLE
    ensures RunCommands(sec, cmds, t, plan) == Run(t, true) <==> !RotationDue(sec, cmds, t.burned)
    ensures RunCommands(sec, cmds, t, plan).state.clock >= t.clock
    ensures RotationDue(sec, cmds, t.burned) && t.burned < TOTAL_FUSES
            ==> RunCommands(sec, cmds, t, plan).state.clock > t.clock
    decreases |cmds|
  {
    if cmds != [] {
      assert cmds == [cmds[0]] + cmds[1..];
      var n := t.burned;
      if cmds[0] == ROTATE && n < sec.minFuseCount {
        var p := Program(sec, ROTATE, n);
        Exec3(t, p[0], p[1], p[2], plan);
        ClockAdvances(Do(t, p[0], plan).state, p[1..], plan);
        var r := Exec(t, p, plan);
        CommandsClock(sec, cmds[1..], r.state, plan);
      } else {
        assert cmds[0] in cmds && forall c | c in cmds[1..] :: c in cmds;
        assert Program(sec, cmds[0], n) == [];
        SettledRerun(sec, cmds[1..], t, plan);
      }
    }
  }

  lemma {:induction false} ClockAdvances(s: State, ops: seq<Op>, plan: FaultPlan)
    ensures Exec(s, ops, plan).state.clock >= s.clock
    decreases |ops|
  {
    if ops != [] && Do(s, ops[0], plan).ok { ClockAdvances(Do(s, ops[0], plan).state, ops[1..], plan); }
  }

  lemma {:induction false} CommandsClock(sec: Section, cmds: seq<byte>, s: State, plan: FaultPlan)
    ensures RunCommands(sec, cmds, s, plan).state.clock >= s.clock
    decreases |cmds|
  {
    if cmds != [] {
      var r := Exec(s, Program(sec, cmds[0], s.burned), plan);
      ClockAdvances(s, Program(sec, cmds[0], s.burned), plan);
      if r.ok { CommandsClock(sec, cmds[1..], r.state, plan); }
    }
  }

  lemma {:induction false} CommandsMonotone(sec: Section, cmds: seq<byte>, s: State, plan: FaultPlan)
    ensures RunCommands(sec, cmds, s, plan).state.burned >= s.burned
    decreases |cmds|
  {
    if cmds != [] && (s.enabled || cmds[0] == NOP) && cmds[0] <= DISABLE {
      ExecRange(s, Program(sec, cmds[0], s.burned), plan, s.burned + 2);
      var r := Exec(s, Program(sec, cmds[0], s.burned), plan);
      if r.ok { CommandsMonotone(sec, cmds[1..], r.state, plan); }
    }
  }

  /** A due rotation burns: two fuses if the run completes, one or two if only refused for
      want of fuses. */
  lemma {:induction false} DueRotationBurns(sec: Section, cmds: seq<byte>, t: State, plan: FaultPlan)
    requires t.enabled && Settled(cmds, t.burned) && (forall c | c in cmds :: c <= DISABLE)
    requires RotationDue(sec, cmds, t.burned)
    ensures var r := RunCommands(sec, cmds, t, plan);
            && (r.ok ==> r.state.burned >= t.burned + 2)
            && ((forall i: nat :: plan(i).Works?) && t.burned < TOTAL_FUSES ==> r.state.burned > t.burned)
    decreases |cmds|
  {
    assert cmds == [cmds[0]] + cmds[1..];
    var n := t.burned;
    var p := Program(sec, cmds[0], n);
    if cmds[0] == ROTATE {
      var r := Exec(t, p, plan);
      Exec3(t, p[0], p[1], p[2], plan);
      ExecRange(Do(t, p[0], plan).state, p[1..], plan, Max(Do(t, p[0], plan).state.burned, n + 2));
      CommandsMonotone(sec, cmds[1..], r.state, plan);
      if r.ok { CommandEffect(sec, ROTATE, t, plan); }
    } else {
      assert cmds[0] in cmds && forall c | c in cmds[1..] :: c in cmds;
      assert p == [];
      DueRotationBurns(sec, cmds[1..], t, plan);
    }
  }

  /** The source documents that re-running a manifest burns no additional fuses.  After a
      completed run a re-run burns a fuse exactly when it finds a rotation due and a fuse
      left; cut off or not, it burns none otherwise. */
  lemma RerunBurnsIff(sec: Section, s: State, first: FaultPlan, plan: FaultPlan)
    requires Accepted(sec) && RunManifest(sec, s, first).ok
    ensures var t := RunManifest(sec, s, first).state;
            var again := RunManifest(sec, t, plan);
            var due := t.enabled && RotationDue(sec, Commands(sec), t.burned);
            && (!due ==> again.state.burned == t.burned)
            && (due && again.ok ==> again.state.burned >= t.burned + 2)
            && ((forall i: nat :: plan(i).Works?) ==>
                  (again.state.burned == t.burned <==> !(due && t.burned < TOTAL_FUSES)))
  {
    var cmds, t := Commands(sec), RunManifest(sec, s, first).state;
    if s.enabled {
      CompletedSettles(sec, cmds, s, first);
      SettledRerun(sec, cmds, t, plan);
      if RotationDue(sec, cmds, t.burned) {
        DueRotationBurns(sec, cmds, t, plan);
        if t.burned >= TOTAL_FUSES { FullKeeps(sec, cmds, t, plan); }
      }
    } else {
      DisabledIdle(sec, cmds, s, first);
      DisabledIdle(sec, cmds, s, plan);
    }
  }

  /** With no fuse left nothing is burned. */
  lemma {:induction false} FullKeeps(sec: Section, cmds: seq<byte>, s: State, plan: FaultPlan)
    requires s.burned >= TOTAL_FUSES
    ensures RunCommands(sec, cmds, s, plan).state.burned == s.burned
    decreases |cmds|
  {
    if cmds != [] && (s.enabled || cmds[0] == NOP) && cmds[0] <= DISABLE {
      ExecRange(s, Program(sec, cmds[0], s.burned), plan, s.burned + 2);
      var r := Exec(s, Program(sec, cmds[0], s.burned), plan);
      if r.ok { FullKeeps(sec, cmds[1..], r.state, plan); }
    }
  }

  /** A re-run succeeds and leaves everything as it was, exactly when no rotation is due. */
  lemma RerunIdleIff(sec: Section, s: State, plan: FaultPlan)
    requires Accepted(sec) && RunManifest(sec, s, plan).ok
    ensures var t := RunManifest(sec, s, plan).state;
            RunManifest(sec, t, plan) == Run(t, true)
            <==> !(t.enabled && RotationDue(sec, Commands(sec), t.burned))
  {
    var cmds := Commands(sec);
    if s.enabled {
      CompletedSettles(sec, cmds, s, plan);
      SettledRerun(sec, cmds, RunManifest(sec, s, plan).state, plan);
    } else {
      DisabledIdle(sec, cmds, s, plan);
    }
  }

  lemma {:induction false} DisabledIdle(sec: Section, cmds: seq<byte>, s: State, plan: FaultPlan)
    requires !s.enabled
    ensures RunCommands(sec, cmds, s, plan) == Run(s, true)
    decreases |cmds|
  {
    if cmds != [] && cmds[0] == NOP {
      assert Program(sec, NOP, s.burned) == [];
      DisabledIdle(sec, cmds[1..], s, plan);
    }
  }

  // ----- the checksum -----

  /** The checksum `with_checksum` stores is the only one that verifies. */
  lemma ChecksumUnique(sec: Section)
    ensures ChecksumOk(sec) <==> sec == WithChecksum(sec)
  {
    var ws := [sec.checksum] + PayloadWords(sec);
    assert ws[0] == sec.checksum && ws[1..] == PayloadWords(sec);
  }

  /** A one-command manifest asking for rotation up to ten fuses: two runs from a fresh
      device burn four fuses, so the second run was not idle. */
  lemma RotateRerunBurnsAgain(plan: FaultPlan)
    requires forall t: nat :: plan(t).Works?
    ensures exists sec: Section :: Accepted(sec) && var s := State(true, 0, Blank, 0);
              RunManifest(sec, s, plan).ok && Reruns(sec, s, plan, 1).burned == 2 && Reruns(sec, s, plan, 2).burned == 4
  {
    var raw := Section(MAGIC, 0, 1, 1, 10, [ROTATE, 0, 0, 0, 0, 0, 0, 0], ZERO_HASH, ZERO_HASH, 0);
    var sec := WithChecksum(raw);
    assert PayloadWords(sec) == PayloadWords(raw);
    ChecksumUnique(sec);
    assert Commands(sec) == [ROTATE];
    var s := State(true, 0, Blank, 0);
    RotateWorks(sec, s, plan);
    var t := Reruns(sec, s, plan, 1);
    assert Reruns(sec, s, plan, 0) == s && t == RunManifest(sec, s, plan).state;
    RotateWorks(sec, t, plan);
    assert Reruns(sec, s, plan, 2) == RunManifest(sec, t, plan).state;
  }

  lemma RotateWorks(sec: Section, s: State, plan: FaultPlan)
    requires forall t: nat :: plan(t).Works?
    requires Accepted(sec) && Commands(sec) == [ROTATE] && s.enabled
    requires s.burned < sec.minFuseCount && s.burned + 2 <= TOTAL_FUSES
    ensures RunManifest(sec, s, plan).ok
    ensures RunManifest(sec, s, plan).state.burned == s.burned + 2
    ensures RunManifest(sec, s, plan).state.enabled
  {
    var p := Program(sec, ROTATE, s.burned);
    Exec3(s, p[0], p[1], p[2], plan);
    Exec2(Do(s, p[0], plan).state, p[1], p[2], plan);
    CommandEffect(sec, ROTATE, s, plan);
    assert [ROTATE][1..] == [];
    var r := Exec(s, p, plan);
    assert RunCommands(sec, [], r.state, plan) == Run(r.state, true);
  }
}
