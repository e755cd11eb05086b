/**
 The command loop of the ROM's I3C services (rom/src/i3c_mailbox.rs) on values: which
 commands may touch the fuses and the flash, and what a whole session leaves behind.
 Hashing, signatures, blob decoding and the random generator are arbitrary functions.
 */
module Session {
  import opened Words
  import opened Wrappers
  import Dot
  import opened DotSafety

  const PING: byte := 0
  const DOT_STATUS: byte := 1
  const DOT_RECOVERY: byte := 2
  const DOT_UNLOCK_CHALLENGE: byte := 3
  const DOT_OVERRIDE: byte := 4

  const SUCCESS: byte := 0
  const INVALID_CMD: byte := 1
  const INVALID_PAYLOAD: byte := 2
  const ERROR: byte := 3

  const ECC_KEY_BYTES := 96
  const ECC_SIG_BYTES := 96
  const MLDSA_KEY_BYTES := 2592
  const MLDSA_SIG_BYTES := 4628
  const BLOB_BYTES := 168
  const UNLOCK_BYTES := ECC_KEY_BYTES + MLDSA_KEY_BYTES
  const OVERRIDE_BYTES := ECC_KEY_BYTES + ECC_SIG_BYTES + MLDSA_KEY_BYTES + MLDSA_SIG_BYTES

  type Bytes = seq<byte>

  datatype Crypto = Crypto(
    keyHash: (Bytes, Bytes) -> Option<Bytes>,
    ecdsa: (Bytes, Bytes, Bytes) -> bool,
    mldsa: (Bytes, Bytes, Bytes) -> bool,
    decodeBlob: Bytes -> Dot.Blob)

  /** `snapshot` is the fuse count read at boot; the handler never re-reads it. */
  datatype Config = Config(
    crypto: Crypto, dotEnabled: bool, snapshot: nat, recoveryHash: Option<Bytes>, keyType: Dot.KeyType)

  /** A reassembled command, and what the random generator answers if asked. */
  datatype Input = Input(cmd: byte, payload: Bytes, random: Option<Bytes>)

  datatype Session = Session(dev: Dot.State, pending: Option<Bytes>, done: bool)

  datatype Reply = Reply(status: byte, data: Bytes)

  const PONG: Bytes := [0x50, 0x4F, 0x4E, 0x47]

  function Slice(p: Bytes, from: nat, n: nat): Bytes
    requires from + n <= |p|
  {
    p[from..from + n]
  }

  /** verify_override_response: the key hash and both signatures over the challenge. */
  predicate Verified(cfg: Config, p: Bytes, challenge: Bytes)
    requires |p| >= OVERRIDE_BYTES
  {
    var eccKey := Slice(p, 0, ECC_KEY_BYTES);
    var eccSig := Slice(p, ECC_KEY_BYTES, ECC_SIG_BYTES);
    var mldsaKey := Slice(p, ECC_KEY_BYTES + ECC_SIG_BYTES, MLDSA_KEY_BYTES);
    var mldsaSig := Slice(p, ECC_KEY_BYTES + ECC_SIG_BYTES + MLDSA_KEY_BYTES, MLDSA_SIG_BYTES);
    && cfg.recoveryHash.Some?
    && cfg.crypto.keyHash(eccKey, mldsaKey) == cfg.recoveryHash
    && cfg.crypto.ecdsa(eccKey, eccSig, challenge)
    && cfg.crypto.mldsa(mldsaKey, mldsaSig, challenge)
  }

  /** A response to challenge c: the vendor keys hash to the fused hash, and both signatures
      over the challenge verify. */
  ghost predicate Evidence(cfg: Config, p: Bytes, c: Bytes) {
    && |p| >= 7412 && cfg.recoveryHash.Some?
    && cfg.crypto.keyHash(p[0..96], p[192..2784]) == cfg.recoveryHash
    && cfg.crypto.ecdsa(p[0..96], p[96..192], c)
    && cfg.crypto.mldsa(p[192..2784], p[2784..7412], c)
  }

  lemma EvidenceVerified(cfg: Config, p: Bytes, c: Bytes)
    ensures Evidence(cfg, p, c) <==> |p| >= OVERRIDE_BYTES && Verified(cfg, p, c)
  {
  }

  function StatusReply(cfg: Config, s: Session): Reply {
    Reply(SUCCESS, [if s.dev.enabled then 1 else 0, cfg.snapshot % 2, cfg.snapshot % 256, cfg.snapshot / 256 % 256])
  }

  function Unlock(cfg: Config, s: Session, input: Input): (Session, Reply) {
    var p := input.payload;
    if |p| < UNLOCK_BYTES then (s, Reply(INVALID_PAYLOAD, []))
    else if !Dot.Odd(cfg.snapshot) || cfg.recoveryHash.None? then (s, Reply(ERROR, []))
    else if cfg.crypto.keyHash(Slice(p, 0, ECC_KEY_BYTES), Slice(p, ECC_KEY_BYTES, MLDSA_KEY_BYTES)) != cfg.recoveryHash
    then (s, Reply(ERROR, []))
    else if input.random.None? then (s, Reply(ERROR, []))
    else (s.(pending := input.random), Reply(SUCCESS, input.random.value))
  }

  /** The pending challenge is consumed before the payload is even looked at. */
  function Override(cfg: Config, s: Session, input: Input, plan: Dot.FaultPlan): (Session, Reply) {
    if s.pending.None? then (s, Reply(ERROR, []))
    else
      var s' := s.(pending := None);
      if |input.payload| < OVERRIDE_BYTES then (s', Reply(INVALID_PAYLOAD, []))
      else if !Verified(cfg, input.payload, s.pending.value) then (s', Reply(ERROR, []))
      else
        var r := Dot.Override(s.dev, cfg.snapshot, cfg.keyType, plan);
        (s'.(dev := r.state, done := r.ok), Reply(if r.ok then SUCCESS else ERROR, []))
  }

  function Recovery(cfg: Config, s: Session, input: Input, plan: Dot.FaultPlan): (Session, Reply) {
    if |input.payload| < BLOB_BYTES then (s, Reply(INVALID_PAYLOAD, []))
    else
      var blob := cfg.crypto.decodeBlob(Slice(input.payload, 0, BLOB_BYTES));
      var r := Dot.Recover(s.dev, cfg.snapshot, blob, cfg.keyType, plan);
      (s.(dev := r.state, done := r.ok), Reply(if r.ok then SUCCESS else ERROR, []))
  }

  function Dispatch(cfg: Config, s: Session, input: Input, plan: Dot.FaultPlan): (Session, Reply) {
    if input.cmd == PING then (s, Reply(SUCCESS, PONG))
    else if !cfg.dotEnabled then (s, Reply(INVALID_CMD, []))
    else if input.cmd == DOT_STATUS then (s, StatusReply(cfg, s))
    else if input.cmd == DOT_RECOVERY then Recovery(cfg, s, input, plan)
    else if input.cmd == DOT_UNLOCK_CHALLENGE then Unlock(cfg, s, input)
    else if input.cmd == DOT_OVERRIDE then Override(cfg, s, input, plan)
    else (s, Reply(INVALID_CMD, []))
  }

  /** No command removes the flash or lowers the count. */
  lemma DispatchKeepsDevice(cfg: Config, s: Session, input: Input, plan: Dot.FaultPlan)
    requires !s.dev.flash.NoFlash?
    ensures var t := Dispatch(cfg, s, input, plan).0.dev;
            !t.flash.NoFlash? && t.burned >= s.dev.burned
  {
    if input.cmd == DOT_RECOVERY && |input.payload| >= BLOB_BYTES {
      Exec1(s.dev, Dot.Write(cfg.crypto.decodeBlob(Slice(input.payload, 0, BLOB_BYTES))), plan);
    } else if input.cmd == DOT_OVERRIDE && s.pending.Some? {
      Exec2(s.dev, Dot.Burn(cfg.snapshot),
            Dot.Write(Dot.Seal(cfg.keyType, cfg.snapshot + 1, Dot.EMPTY_FIELDS)), plan);
    }
  }

  /** The session before command i; a finished session takes no more commands. */
  function Before(cfg: Config, s: Session, inputs: seq<Input>, i: nat, plan: Dot.FaultPlan): Session
    requires i <= |inputs|
  {
    if i == 0 then s
    else
      var b := Before(cfg, s, inputs, i - 1, plan);
      if b.done then b else Dispatch(cfg, b, inputs[i - 1], plan).0
  }

  function ReplyTo(cfg: Config, s: Session, inputs: seq<Input>, i: nat, plan: Dot.FaultPlan): Option<Reply>
    requires i < |inputs|
  {
    var b := Before(cfg, s, inputs, i, plan);
    if b.done then None else Some(Dispatch(cfg, b, inputs[i], plan).1)
  }

  // ----- challenges -----

  /** Command i was answered with challenge c. */
  predicate Challenged(cfg: Config, s: Session, inputs: seq<Input>, i: nat, plan: Dot.FaultPlan, c: Bytes)
    requires i < |inputs|
  {
    inputs[i].cmd == DOT_UNLOCK_CHALLENGE && ReplyTo(cfg, s, inputs, i, plan) == Some(Reply(SUCCESS, c))
  }

  predicate SpendsOrReplaces(cfg: Config, s: Session, inputs: seq<Input>, i: nat, plan: Dot.FaultPlan)
    requires i < |inputs|
  {
    || inputs[i].cmd == DOT_OVERRIDE
    || (inputs[i].cmd == DOT_UNLOCK_CHALLENGE
        && ReplyTo(cfg, s, inputs, i, plan).Some?
        && ReplyTo(cfg, s, inputs, i, plan).value.status == SUCCESS)
  }

  /** Challenge c was issued by command i and nothing since has spent or replaced it. */
  predicate Fresh(cfg: Config, s: Session, inputs: seq<Input>, i: nat, j: nat, plan: Dot.FaultPlan, c: Bytes)
    requires j <= |inputs|
  {
    && i < j && Challenged(cfg, s, inputs, i, plan, c)
    && forall m | i < m < j :: !SpendsOrReplaces(cfg, s, inputs, m, plan)
  }

  lemma {:induction false} PendingIsFresh(cfg: Config, s: Session, inputs: seq<Input>, j: nat, plan: Dot.FaultPlan)
    returns (i: nat)
    requires j <= |inputs| && s.pending.None?
    requires Before(cfg, s, inputs, j, plan).pending.Some? && !Before(cfg, s, inputs, j, plan).done
    ensures Fresh(cfg, s, inputs, i, j, plan, Before(cfg, s, inputs, j, plan).pending.value)
  {
    var b := Before(cfg, s, inputs, j - 1, plan);
    var input := inputs[j - 1];
    if input.cmd == DOT_UNLOCK_CHALLENGE && Dispatch(cfg, b, input, plan).1.status == SUCCESS {
      i := j - 1;
    } else {
      i := PendingIsFresh(cfg, s, inputs, j - 1, plan);
    }
  }

  /** What a verified override may leave: the old state, the fuse, or the fuse and the empty blob. */
  predicate OverrideWrites(cfg: Config, s: Dot.State, t: Dot.State) {
    && t.burned in {s.burned, Max(s.burned, cfg.snapshot + 1)}
    && t.flash in {s.flash, Dot.Holds(Dot.Seal(cfg.keyType, cfg.snapshot + 1, Dot.EMPTY_FIELDS))}
    && (t.flash != s.flash ==> t.burned >= cfg.snapshot + 1)
  }

  /** What a recovery may leave: no fuse moved, and at most a blob authentic at the snapshot. */
  predicate RecoveryWrites(cfg: Config, s: Dot.State, t: Dot.State) {
    && t.burned == s.burned
    && (t.flash == s.flash || (t.flash.Holds? && Dot.Authentic(cfg.keyType, cfg.snapshot, t.flash.blob)))
  }

  /** Whatever the host sends, a command that writes to the device is either an override
      verified over the challenge of the latest successful DOT_UNLOCK_CHALLENGE, with no
      override attempted since, or a recovery with a blob authentic at the snapshot. */
  lemma WritesAreAuthorized(cfg: Config, s: Session, inputs: seq<Input>, j: nat, plan: Dot.FaultPlan)
    requires j < |inputs| && s.pending.None?
    requires Before(cfg, s, inputs, j + 1, plan).dev != Before(cfg, s, inputs, j, plan).dev
    ensures var before, after := Before(cfg, s, inputs, j, plan).dev, Before(cfg, s, inputs, j + 1, plan).dev;
            || (&& inputs[j].cmd == DOT_OVERRIDE
                && (exists i, c :: Fresh(cfg, s, inputs, i, j, plan, c) && Evidence(cfg, inputs[j].payload, c))
                && OverrideWrites(cfg, before, after))
            || (inputs[j].cmd == DOT_RECOVERY && RecoveryWrites(cfg, before, after))
  {
    var b := Before(cfg, s, inputs, j, plan);
    if inputs[j].cmd == DOT_OVERRIDE {
      var i := PendingIsFresh(cfg, s, inputs, j, plan);
      EvidenceVerified(cfg, inputs[j].payload, b.pending.value);
      Exec2(b.dev, Dot.Burn(cfg.snapshot),
            Dot.Write(Dot.Seal(cfg.keyType, cfg.snapshot + 1, Dot.EMPTY_FIELDS)), plan);
    } else {
      var blob := cfg.crypto.decodeBlob(Slice(inputs[j].payload, 0, BLOB_BYTES));
      Exec1(b.dev, Dot.Write(blob), plan);
    }
  }

  // ----- a whole session -----

  /** A flash device is there, in whatever condition, and the count is the snapshot's or one
      more: a forced session runs on the snapshot read before the boot flow burned its fuse. */
  predicate Starts(cfg: Config, s: Session) {
    && cfg.snapshot <= s.dev.burned <= cfg.snapshot + 1
    && !s.dev.flash.NoFlash? && s.pending.None? && !s.done
  }

  /** At most one fuse past the snapshot, and any fuse of the session only on a locked device. */
  predicate WithinOne(cfg: Config, start: nat, s: Session) {
    && !s.dev.flash.NoFlash?
    && (s.pending.Some? ==> Dot.Odd(cfg.snapshot))
    && cfg.snapshot <= start <= s.dev.burned <= cfg.snapshot + 1
    && (s.dev.burned != start ==> Dot.Odd(cfg.snapshot))
  }

  lemma DispatchWithinOne(cfg: Config, start: nat, s: Session, input: Input, plan: Dot.FaultPlan)
    requires WithinOne(cfg, start, s)
    ensures WithinOne(cfg, start, Dispatch(cfg, s, input, plan).0)
  {
    if input.cmd == DOT_RECOVERY && |input.payload| >= BLOB_BYTES {
      Exec1(s.dev, Dot.Write(cfg.crypto.decodeBlob(Slice(input.payload, 0, BLOB_BYTES))), plan);
    } else if input.cmd == DOT_OVERRIDE && s.pending.Some? {
      Exec2(s.dev, Dot.Burn(cfg.snapshot),
            Dot.Write(Dot.Seal(cfg.keyType, cfg.snapshot + 1, Dot.EMPTY_FIELDS)), plan);
    }
  }

  /** However many overrides are retried after failed writes, a session never takes the count
      more than one past its snapshot, and burns nothing unless the snapshot is locked. */
  lemma {:induction false} SessionBurnsAtMostOne(
    cfg: Config, s: Session, inputs: seq<Input>, i: nat, plan: Dot.FaultPlan)
    requires i <= |inputs| && Starts(cfg, s)
    ensures WithinOne(cfg, s.dev.burned, Before(cfg, s, inputs, i, plan))
  {
    if i > 0 {
      SessionBurnsAtMostOne(cfg, s, inputs, i - 1, plan);
      var b := Before(cfg, s, inputs, i - 1, plan);
      if !b.done { DispatchWithinOne(cfg, s.dev.burned, b, inputs[i - 1], plan); }
    }
  }

  /** A boot followed by any session on the snapshot taken before it burns at most one fuse in all. */
  lemma BootThenSessionBurnsOne(
    s: Dot.State, kt: Dot.KeyType, fuseOwner: Option<Dot.KeyHash>, cfg: Config, inputs: seq<Input>, i: nat,
    plan: Dot.FaultPlan)
    requires i <= |inputs| && !s.flash.NoFlash? && cfg.snapshot == s.burned
    ensures var booted := Dot.ColdBoot(s, kt, fuseOwner, plan).state;
            s.burned <= Before(cfg, Session(booted, None, false), inputs, i, plan).dev.burned <= s.burned + 1
  {
    if s.flash.Holds? { Exec1(s, Dot.Burn(s.burned), plan); }
    SessionBurnsAtMostOne(cfg, Session(Dot.ColdBoot(s, kt, fuseOwner, plan).state, None, false), inputs, i, plan);
  }

  /** The command that ends a session leaves an openable blob, except that a recovery does not
      once the count has left the lock period of the snapshot. */
  lemma EndSealedIff(cfg: Config, s: Session, inputs: seq<Input>, j: nat, plan: Dot.FaultPlan)
    requires j < |inputs| && Starts(cfg, s)
    requires !Before(cfg, s, inputs, j, plan).done && Before(cfg, s, inputs, j + 1, plan).done
    ensures Dot.Sealed(cfg.keyType, Before(cfg, s, inputs, j + 1, plan).dev)
            <==> || inputs[j].cmd == DOT_OVERRIDE
                 || Dot.Derivation(Before(cfg, s, inputs, j, plan).dev.burned) == Dot.Derivation(cfg.snapshot)
  {
    SessionBurnsAtMostOne(cfg, s, inputs, j, plan);
    var b := Before(cfg, s, inputs, j, plan);
    if inputs[j].cmd == DOT_RECOVERY {
      Exec1(b.dev, Dot.Write(cfg.crypto.decodeBlob(Slice(inputs[j].payload, 0, BLOB_BYTES))), plan);
    } else {
      Exec2(b.dev, Dot.Burn(cfg.snapshot),
            Dot.Write(Dot.Seal(cfg.keyType, cfg.snapshot + 1, Dot.EMPTY_FIELDS)), plan);
    }
  }

  /** The exception occurs: the override's flash write fails, then a backup blob for the
      old count is accepted with SUCCESS although the device has moved on. */
  lemma StaleRecoveryAccepted()
    ensures exists cfg, s, inputs: seq<Input>, plan ::
      && |inputs| == 3 && Starts(cfg, s)
      && ReplyTo(cfg, s, inputs, 2, plan) == Some(Reply(SUCCESS, []))
      && !Dot.Sealed(cfg.keyType, Before(cfg, s, inputs, 3, plan).dev)
  {
    var blob := Dot.Seal(Dot.IDevId, 1, Dot.EMPTY_FIELDS);
    var crypto := Crypto((k, m) => Some([]), (k, g, c) => true, (k, g, c) => true, b => blob);
    var cfg := Config(crypto, true, 1, Some([]), Dot.IDevId);
    var s := Session(Dot.State(true, 1, Dot.Holds(blob), 0), None, false);
    var plan: Dot.FaultPlan := t => if t == 1 then Dot.Lost else Dot.Works;
    var challenge: Bytes := seq(48, _ => 7);
    var inputs := [Input(DOT_UNLOCK_CHALLENGE, seq(UNLOCK_BYTES, _ => 0), Some(challenge)),
                   Input(DOT_OVERRIDE, seq(OVERRIDE_BYTES, _ => 0), None),
                   Input(DOT_RECOVERY, seq(BLOB_BYTES, _ => 0), None)];
    assert Before(cfg, s, inputs, 0, plan) == s;
    assert cfg.crypto.keyHash([], []) == cfg.recoveryHash;
    assert Unlock(cfg, s, inputs[0]).0 == s.(pending := Some(challenge));
    var s1 := Before(cfg, s, inputs, 1, plan);
    assert s1 == s.(pending := Some(challenge));
    var s2 := Before(cfg, s, inputs, 2, plan);
    Exec2(s.dev, Dot.Burn(1), Dot.Write(Dot.Seal(Dot.IDevId, 2, Dot.EMPTY_FIELDS)), plan);
    assert s2 == Session(s.dev.(burned := 2, clock := 2), None, false);
    Exec1(s2.dev, Dot.Write(blob), plan);
    assert Before(cfg, s, inputs, 3, plan).dev.flash == Dot.Holds(blob);
  }

  // ----- which sessions repair a device -----

  /** A challenge request that is granted. */
  predicate Unlocks(cfg: Config, input: Input) {
    && |input.payload| >= UNLOCK_BYTES && Dot.Odd(cfg.snapshot) && cfg.recoveryHash.Some? && input.random.Some?
    && cfg.crypto.keyHash(Slice(input.payload, 0, ECC_KEY_BYTES), Slice(input.payload, ECC_KEY_BYTES, MLDSA_KEY_BYTES))
       == cfg.recoveryHash
  }

  /** The challenge pending before command i, from the commands alone. */
  function PendingAt(cfg: Config, inputs: seq<Input>, i: nat): Option<Bytes>
    requires i <= |inputs|
  {
    if i == 0 || !cfg.dotEnabled then None
    else
      var input := inputs[i - 1];
      if input.cmd == DOT_OVERRIDE then None
      else if input.cmd == DOT_UNLOCK_CHALLENGE && Unlocks(cfg, input) then input.random
      else PendingAt(cfg, inputs, i - 1)
  }

  /** Command j is a recovery with a blob authentic at the snapshot, or an override verified
      over the challenge then pending. */
  predicate Restores(cfg: Config, inputs: seq<Input>, j: nat)
    requires j < |inputs|
  {
    var p := inputs[j].payload;
    && cfg.dotEnabled
    && (|| (&& inputs[j].cmd == DOT_RECOVERY && |p| >= BLOB_BYTES
            && Dot.Authentic(cfg.keyType, cfg.snapshot, cfg.crypto.decodeBlob(Slice(p, 0, BLOB_BYTES))))
        || (&& inputs[j].cmd == DOT_OVERRIDE && |p| >= OVERRIDE_BYTES
            && PendingAt(cfg, inputs, j).Some? && Verified(cfg, p, PendingAt(cfg, inputs, j).value)))
  }

  lemma DispatchUnrestored(cfg: Config, s: Session, inputs: seq<Input>, i: nat, plan: Dot.FaultPlan)
    requires i < |inputs| && !s.done && s.pending == PendingAt(cfg, inputs, i) && !Restores(cfg, inputs, i)
    ensures Dispatch(cfg, s, inputs[i], plan).0 == s.(pending := PendingAt(cfg, inputs, i + 1))
  {
    var input := inputs[i];
    if cfg.dotEnabled && input.cmd == DOT_UNLOCK_CHALLENGE {
      assert Unlock(cfg, s, input).0 == if Unlocks(cfg, input) then s.(pending := input.random) else s;
    }
  }

  /** Before such a command nothing is written, whatever the faults, and the session goes on. */
  lemma {:induction false} Unrestored(cfg: Config, s: Session, inputs: seq<Input>, i: nat, plan: Dot.FaultPlan)
    requires i <= |inputs| && s.pending.None? && !s.done
    requires forall j | 0 <= j < i :: !Restores(cfg, inputs, j)
    ensures Before(cfg, s, inputs, i, plan) == s.(pending := PendingAt(cfg, inputs, i))
  {
    if i > 0 {
      Unrestored(cfg, s, inputs, i - 1, plan);
      DispatchUnrestored(cfg, Before(cfg, s, inputs, i - 1, plan), inputs, i - 1, plan);
    }
  }

  /** Such a command, when its writes work, ends the session with a blob that opens. */
  ghost predicate FirstRestoring(cfg: Config, inputs: seq<Input>, j: nat) {
    j < |inputs| && Restores(cfg, inputs, j) && forall k | 0 <= k < j :: !Restores(cfg, inputs, k)
  }

  lemma RestoreEnds(cfg: Config, s: Session, inputs: seq<Input>, j: nat, plan: Dot.FaultPlan)
    requires FirstRestoring(cfg, inputs, j) && Starts(cfg, s) && s.dev.burned == cfg.snapshot < Dot.TOTAL_FUSES
    requires forall t: nat :: plan(t).Works?
    ensures var t := Before(cfg, s, inputs, j + 1, plan); t.done && Dot.Sealed(cfg.keyType, t.dev)
  {
    Unrestored(cfg, s, inputs, j, plan);
    if inputs[j].cmd == DOT_RECOVERY {
      Exec1(s.dev, Dot.Write(cfg.crypto.decodeBlob(Slice(inputs[j].payload, 0, BLOB_BYTES))), plan);
    } else {
      Exec2(s.dev, Dot.Burn(cfg.snapshot),
            Dot.Write(Dot.Seal(cfg.keyType, cfg.snapshot + 1, Dot.EMPTY_FIELDS)), plan);
    }
  }

  lemma {:induction false} DoneKept(cfg: Config, s: Session, inputs: seq<Input>, i: nat, k: nat, plan: Dot.FaultPlan)
    requires i <= k <= |inputs| && Before(cfg, s, inputs, i, plan).done
    ensures Before(cfg, s, inputs, k, plan) == Before(cfg, s, inputs, i, plan)
  {
    if i < k { DoneKept(cfg, s, inputs, i, k - 1, plan); }
  }

  ghost predicate SomeRestores(cfg: Config, inputs: seq<Input>) {
    exists j | 0 <= j < |inputs| :: Restores(cfg, inputs, j)
  }

  lemma FirstRestore(cfg: Config, inputs: seq<Input>) returns (j: nat)
    requires SomeRestores(cfg, inputs)
    ensures FirstRestoring(cfg, inputs, j)
  {
    var k :| 0 <= k < |inputs| && Restores(cfg, inputs, k);
    j := 0;
    while !Restores(cfg, inputs, j)
      invariant j <= k && forall i | 0 <= i < j :: !Restores(cfg, inputs, i)
      decreases k - j
    {
      j := j + 1;
    }
  }

  lemma SealedStays(cfg: Config, s: Session, inputs: seq<Input>, i: nat, plan: Dot.FaultPlan)
    requires i <= |inputs|
    requires var t := Before(cfg, s, inputs, i, plan); t.done && Dot.Sealed(cfg.keyType, t.dev)
    ensures Dot.Sealed(cfg.keyType, Before(cfg, s, inputs, |inputs|, plan).dev)
  {
    DoneKept(cfg, s, inputs, i, |inputs|, plan);
  }

  lemma RestoreLasts(cfg: Config, s: Session, inputs: seq<Input>, j: nat, plan: Dot.FaultPlan)
    requires FirstRestoring(cfg, inputs, j) && Starts(cfg, s) && s.dev.burned == cfg.snapshot < Dot.TOTAL_FUSES
    requires forall t: nat :: plan(t).Works?
    ensures Dot.Sealed(cfg.keyType, Before(cfg, s, inputs, |inputs|, plan).dev)
  {
    RestoreEnds(cfg, s, inputs, j, plan);
    SealedStays(cfg, s, inputs, j + 1, plan);
  }

  lemma RestoredAtEnd(cfg: Config, s: Session, inputs: seq<Input>, plan: Dot.FaultPlan)
    requires Starts(cfg, s) && s.dev.burned == cfg.snapshot < Dot.TOTAL_FUSES
    requires forall t: nat :: plan(t).Works?
    requires SomeRestores(cfg, inputs)
    ensures Dot.Sealed(cfg.keyType, Before(cfg, s, inputs, |inputs|, plan).dev)
  {
    var j := FirstRestore(cfg, inputs);
    RestoreLasts(cfg, s, inputs, j, plan);
  }

  /** A session repairs a device whose blob is gone if and only if some command restores it;
      otherwise it writes nothing at all. */
  lemma SessionRestoresIff(cfg: Config, s: Session, inputs: seq<Input>, plan: Dot.FaultPlan)
    requires Starts(cfg, s) && s.dev.burned == cfg.snapshot < Dot.TOTAL_FUSES && !Dot.Sealed(cfg.keyType, s.dev)
    requires forall t: nat :: plan(t).Works?
    ensures var t := Before(cfg, s, inputs, |inputs|, plan);
            Dot.Sealed(cfg.keyType, t.dev) <==> SomeRestores(cfg, inputs)
  {
    if SomeRestores(cfg, inputs) {
      RestoredAtEnd(cfg, s, inputs, plan);
    } else {
      Unrestored(cfg, s, inputs, |inputs|, plan);
    }
  }

  /** No session takes the count past the fuse array. */
  lemma {:induction false} SessionCapped(cfg: Config, s: Session, inputs: seq<Input>, i: nat, plan: Dot.FaultPlan)
    requires i <= |inputs|
    ensures Before(cfg, s, inputs, i, plan).dev.burned <= Max(s.dev.burned, Dot.TOTAL_FUSES)
  {
    if i > 0 {
      SessionCapped(cfg, s, inputs, i - 1, plan);
      var b, input := Before(cfg, s, inputs, i - 1, plan), inputs[i - 1];
      if input.cmd == DOT_RECOVERY && |input.payload| >= BLOB_BYTES {
        Exec1(b.dev, Dot.Write(cfg.crypto.decodeBlob(Slice(input.payload, 0, BLOB_BYTES))), plan);
      } else if input.cmd == DOT_OVERRIDE {
        Exec2(b.dev, Dot.Burn(cfg.snapshot),
              Dot.Write(Dot.Seal(cfg.keyType, cfg.snapshot + 1, Dot.EMPTY_FIELDS)), plan);
      }
    }
  }

  // ----- the evidence, byte by byte -----

  /** An override touches the device only on evidence over the pending challenge. */
  lemma OverrideNeedsEvidence(cfg: Config, s: Session, input: Input, plan: Dot.FaultPlan)
    requires input.cmd == 4 && Dispatch(cfg, s, input, plan).0.dev != s.dev
    ensures cfg.dotEnabled && s.pending.Some? && Evidence(cfg, input.payload, s.pending.value)
  {
    if s.pending.Some? { EvidenceVerified(cfg, input.payload, s.pending.value); }
  }

  /** Given the evidence and working writes, it succeeds: the fuse is burned, the blob holds no
      keys and is sealed for the next count, and the session ends; without it the challenge is
      spent and nothing else happens. */
  lemma OverrideOutcome(cfg: Config, s: Session, input: Input, plan: Dot.FaultPlan)
    requires input.cmd == 4 && cfg.dotEnabled && s.pending.Some? && !s.done
    requires !s.dev.flash.NoFlash? && cfg.snapshot < 256 && forall t: nat :: plan(t).Works?
    ensures var (t, reply) := Dispatch(cfg, s, input, plan);
            if Evidence(cfg, input.payload, s.pending.value) then
              && reply == Reply(0, []) && t.done && t.pending == None
              && t.dev.burned == Max(s.dev.burned, cfg.snapshot + 1) && t.dev.flash.Holds?
              && t.dev.flash.blob.fields.cak == Dot.ZERO_HASH && t.dev.flash.blob.fields.lak == Dot.ZERO_HASH
              && t.dev.flash.blob.tag
                 == Dot.Mac(cfg.keyType, (cfg.snapshot + 1) / 2 * 2 + 1, t.dev.flash.blob.fields)
            else t == s.(pending := None) && reply == Reply(if |input.payload| < 7412 then 2 else 3, [])
  {
    EvidenceVerified(cfg, input.payload, s.pending.value);
    Exec2(s.dev, Dot.Burn(cfg.snapshot),
          Dot.Write(Dot.Seal(cfg.keyType, cfg.snapshot + 1, Dot.EMPTY_FIELDS)), plan);
  }

  /** A challenge is granted exactly on a locked snapshot to keys that hash to the fused hash. */
  lemma ChallengeOutcome(cfg: Config, s: Session, input: Input, plan: Dot.FaultPlan)
    requires input.cmd == 3 && cfg.dotEnabled
    ensures var p := input.payload;
            Dispatch(cfg, s, input, plan)
            == if |p| < 2688 then (s, Reply(2, []))
               else if && cfg.snapshot % 2 == 1 && cfg.recoveryHash.Some? && input.random.Some?
                       && cfg.crypto.keyHash(p[0..96], p[96..2688]) == cfg.recoveryHash
               then (s.(pending := input.random), Reply(0, input.random.value))
               else (s, Reply(3, []))
  {
  }

  /** A recovery takes the first 168 bytes, and only a blob sealed for the snapshot. */
  lemma RecoveryOutcome(cfg: Config, s: Session, input: Input, plan: Dot.FaultPlan)
    requires input.cmd == 2 && cfg.dotEnabled && !s.done
    requires !s.dev.flash.NoFlash? && forall t: nat :: plan(t).Works?
    ensures Dispatch(cfg, s, input, plan)
         == if |input.payload| < 168 then (s, Reply(2, []))
            else
              var blob := cfg.crypto.decodeBlob(input.payload[0..168]);
              if blob.tag != Dot.Mac(cfg.keyType, cfg.snapshot / 2 * 2 + 1, blob.fields) then (s, Reply(3, []))
              else (s.(dev := s.dev.(flash := Dot.Holds(blob), clock := s.dev.clock + 1), done := true), Reply(0, []))
  {
    if |input.payload| >= 168 {
      Exec1(s.dev, Dot.Write(cfg.crypto.decodeBlob(input.payload[0..168])), plan);
    }
  }

  /** The commands that only answer. */
  lemma PlainReplies(cfg: Config, s: Session, input: Input, plan: Dot.FaultPlan)
    ensures input.cmd == 0 ==> Dispatch(cfg, s, input, plan) == (s, Reply(0, [0x50, 0x4F, 0x4E, 0x47]))
    ensures input.cmd == 1 && cfg.dotEnabled && cfg.snapshot <= 256 ==>
              Dispatch(cfg, s, input, plan)
              == (s, Reply(0, [if s.dev.enabled then 1 else 0, cfg.snapshot % 2,
                               if cfg.snapshot == 256 then 0 else cfg.snapshot, cfg.snapshot / 256]))
    ensures input.cmd > 4 || (input.cmd != 0 && !cfg.dotEnabled) ==>
              Dispatch(cfg, s, input, plan) == (s, Reply(1, []))
  {
  }
}
