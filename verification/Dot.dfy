/**
 Device Ownership Transfer (rom/src/device_ownership_transfer.rs) on values.

 The lock state is the parity of a fuse counter.  A blob in flash names the owner and
 is sealed under a key derived from that counter.  Every flow is a short list of
 writes to fuses and flash; `FaultPlan` decides, write by write, whether it works,
 is lost, or takes effect but is reported as failed.  Each flow stops at the first
 failed write, so a failed write is also what a power loss at that point leaves.
 */
module Dot {
  import opened Words
  import opened Wrappers

  const TOTAL_FUSES := 256

  type KeyHash = h: seq<u32> | |h| == 12 witness [0, 0, 0, 0, 0, 0, 0, 0, 0, 0, 0, 0]

  const ZERO_HASH: KeyHash := [0, 0, 0, 0, 0, 0, 0, 0, 0, 0, 0, 0]

  predicate IsZero(h: KeyHash) { forall i | 0 <= i < 12 :: h[i] == 0 }

  datatype KeyType = IDevId | LDevId

  datatype Fields = Fields(version: nat, cak: KeyHash, lak: KeyHash, unlockMethod: nat)

  /** An HMAC is an injective function of the key's inputs and the message. */
  datatype Tag = Mac(keyType: KeyType, derivation: nat, fields: Fields) | Unrelated(bits: nat)

  datatype Blob = Blob(fields: Fields, tag: Tag)

  datatype Flash = NoFlash | Blank | Holds(blob: Blob)

  datatype Fault = Works | Lost | Late

  type FaultPlan = nat -> Fault

  /** `clock` counts the attempted writes; it only indexes the fault plan. */
  datatype State = State(enabled: bool, burned: nat, flash: Flash, clock: nat)

  datatype Run = Run(state: State, ok: bool)

  predicate Odd(n: nat) { n % 2 == 1 }

  /** The fuse value the sealing key is derived from: counts 2k and 2k+1 share it. */
  function Derivation(burned: nat): nat {
    if Odd(burned) then burned else burned + 1
  }

  function Seal(kt: KeyType, burned: nat, fields: Fields): Blob {
    Blob(fields, Mac(kt, Derivation(burned), fields))
  }

  predicate Authentic(kt: KeyType, burned: nat, blob: Blob) {
    blob.tag == Mac(kt, Derivation(burned), blob.fields)
  }

  /** The flash holds a blob that authenticates at the current count. */
  predicate Sealed(kt: KeyType, s: State) {
    s.flash.Holds? && Authentic(kt, s.burned, s.flash.blob)
  }

  // ----- writes -----

  datatype Op = Burn(snapshot: nat) | Write(blob: Blob)

  function Attempt(s: State, target: State, plan: FaultPlan): Run {
    var s' := if plan(s.clock).Lost? then s else target;
    Run(s'.(clock := s.clock + 1), plan(s.clock).Works?)
  }

  /** Burning sets the bit numbered by the caller's snapshot of the count. */
  function Do(s: State, op: Op, plan: FaultPlan): Run {
    match op
    case Burn(k) =>
      if k >= TOTAL_FUSES then Run(s, false)
      else Attempt(s, s.(burned := Max(s.burned, k + 1)), plan)
    case Write(blob) =>
      if s.flash.NoFlash? then Run(s, true)
      else Attempt(s, s.(flash := Holds(blob)), plan)
  }

  function Exec(s: State, ops: seq<Op>, plan: FaultPlan): Run
    decreases |ops|
  {
    if ops == [] then Run(s, true)
    else
      var r := Do(s, ops[0], plan);
      if r.ok then Exec(r.state, ops[1..], plan) else r
  }

  // ----- firmware manifest commands -----

  const NOP: byte := 0
  const LOCK: byte := 1
  const UNLOCK: byte := 2
  const ROTATE: byte := 3
  const DISABLE: byte := 4

  const MAGIC: u32 := 0x444F_5443
  const MAX_COMMANDS := 8
  const CHALLENGE_RESPONSE := 1

  type CommandBytes = c: seq<byte> | |c| == MAX_COMMANDS witness [0, 0, 0, 0, 0, 0, 0, 0]

  /** FwManifestDotSection, field by field; 128 bytes, 32 words. */
  datatype Section = Section(
    magic: u32, checksum: u32, version: u32, numCommands: u32, minFuseCount: u32,
    commands: CommandBytes, cak: KeyHash, lak: KeyHash, reserved: u32)

  /** The words that follow the checksum field. */
  function PayloadWords(sec: Section): seq<u32> {
    var c := sec.commands;
    [sec.version, sec.numCommands, sec.minFuseCount,
     FromBytes(c[0], c[1], c[2], c[3]), FromBytes(c[4], c[5], c[6], c[7])]
    + sec.cak + sec.lak + [sec.reserved]
  }

  /** Wrapping 32-bit sum. */
  function WordSum(ws: seq<u32>): u32 {
    if ws == [] then 0 else (ws[0] + WordSum(ws[1..])) % 0x1_0000_0000
  }

  predicate ChecksumOk(sec: Section) {
    WordSum([sec.checksum] + PayloadWords(sec)) == 0xFFFF_FFFF
  }

  function WithChecksum(sec: Section): Section {
    sec.(checksum := 0xFFFF_FFFF - WordSum(PayloadWords(sec)))
  }

  function Commands(sec: Section): seq<byte>
    requires sec.numCommands <= MAX_COMMANDS
  {
    sec.commands[..sec.numCommands]
  }

  predicate Locks(cmds: seq<byte>) { LOCK in cmds || DISABLE in cmds }

  /** A section whose commands will be executed. */
  predicate Accepted(sec: Section) {
    && sec.magic == MAGIC
    && ChecksumOk(sec)
    && sec.version == 1
    && sec.numCommands <= MAX_COMMANDS
    && !(Locks(Commands(sec)) && UNLOCK in Commands(sec))
  }

  function OwnerFields(cak: KeyHash, lak: KeyHash): Fields {
    Fields(1, cak, lak, CHALLENGE_RESPONSE)
  }

  /** Fuses a command sets out to burn when it finds `n` burned; 0 if it does not apply. */
  function Advance(sec: Section, cmd: byte, n: nat): nat {
    if (cmd == LOCK || cmd == DISABLE) && !Odd(n) then 1
    else if cmd == UNLOCK && Odd(n) then 1
    else if cmd == ROTATE && n < sec.minFuseCount then 2
    else 0
  }

  /** LOCK and DISABLE seal for the count they find, UNLOCK and ROTATE for the one they leave. */
  function NewBlob(sec: Section, cmd: byte, n: nat): Blob {
    var cak := if cmd == LOCK || cmd == ROTATE then sec.cak else ZERO_HASH;
    var count := if cmd == UNLOCK then n + 1 else if cmd == ROTATE then n + 2 else n;
    Seal(IDevId, count, OwnerFields(cak, sec.lak))
  }

  /** The writes of one command, in order: ROTATE burns before it seals, the others after. */
  function Program(sec: Section, cmd: byte, n: nat): seq<Op> {
    var k := Advance(sec, cmd, n);
    if k == 0 then [] else if k == 1 then [Write(NewBlob(sec, cmd, n)), Burn(n)]
    else [Burn(n), Burn(n + 1), Write(NewBlob(sec, cmd, n))]
  }

  function RunCommands(sec: Section, cmds: seq<byte>, s: State, plan: FaultPlan): Run
    decreases |cmds|
  {
    if cmds == [] then Run(s, true)
    else if !s.enabled && cmds[0] != NOP then Run(s, true)
    else if cmds[0] > DISABLE then Run(s, false)
    else
      var r := Exec(s, Program(sec, cmds[0], s.burned), plan);
      if r.ok then RunCommands(sec, cmds[1..], r.state, plan) else r
  }

  function RunManifest(sec: Section, s: State, plan: FaultPlan): Run {
    if sec.magic != MAGIC then Run(s, true)
    else if !Accepted(sec) then Run(s, false)
    else RunCommands(sec, Commands(sec), s, plan)
  }

  // ----- cold boot, recovery and override -----

  datatype Boot = Boot(state: State, owner: Result<Option<KeyHash>, ()>)

  predicate LockPending(s: State) {
    && s.flash.Holds? && s.enabled && !Odd(s.burned)
    && !IsZero(s.flash.blob.fields.cak) && !IsZero(s.flash.blob.fields.lak)
  }

  /** The owner is decided from the count read before any burn. */
  function DotOwner(s: State, fuseOwner: Option<KeyHash>): Option<KeyHash>
    requires s.flash.Holds?
  {
    if s.enabled && Odd(s.burned) && !IsZero(s.flash.blob.fields.cak)
    then Some(s.flash.blob.fields.cak) else fuseOwner
  }

  function DotFlow(s: State, kt: KeyType, fuseOwner: Option<KeyHash>, plan: FaultPlan): Boot
    requires s.flash.Holds?
  {
    if !Sealed(kt, s) then Boot(s, Failure(()))
    else
      var r := Exec(s, if LockPending(s) then [Burn(s.burned)] else [], plan);
      Boot(r.state, if r.ok then Success(DotOwner(s, fuseOwner)) else Failure(()))
  }

  function ColdBoot(s: State, kt: KeyType, fuseOwner: Option<KeyHash>, plan: FaultPlan): Boot {
    match s.flash
    case NoFlash => Boot(s, Success(fuseOwner))
    case Blank =>
      Boot(s, if s.enabled && Odd(s.burned) then Failure(()) else Success(fuseOwner))
    case Holds(_) => DotFlow(s, kt, fuseOwner, plan)
  }

  function Recover(s: State, snapshot: nat, backup: Blob, kt: KeyType, plan: FaultPlan): Run {
    if Authentic(kt, snapshot, backup) then Exec(s, [Write(backup)], plan) else Run(s, false)
  }

  const EMPTY_FIELDS := Fields(1, ZERO_HASH, ZERO_HASH, 0)

  function Override(s: State, snapshot: nat, kt: KeyType, plan: FaultPlan): Run {
    Exec(s, [Burn(snapshot), Write(Seal(kt, snapshot + 1, EMPTY_FIELDS))], plan)
  }

  /** write_recovery_dot_blob: an ownerless blob for the current count. */
  function Reseal(s: State, plan: FaultPlan): Run {
    Exec(s, [Write(Seal(IDevId, s.burned, OwnerFields(ZERO_HASH, ZERO_HASH)))], plan)
  }

  datatype Event =
    | Booted(fuseOwner: Option<KeyHash>)
    | Manifest(section: Section)
    | Recovered(backup: Blob)
    | Overridden
    | Resealed

  function Step(s: State, e: Event, kt: KeyType, plan: FaultPlan): Run {
    match e
    case Booted(fuseOwner) =>
      var b := ColdBoot(s, kt, fuseOwner, plan);
      Run(b.state, b.owner.Success?)
    case Manifest(sec) => RunManifest(sec, s, plan)
    case Recovered(backup) => Recover(s, s.burned, backup, kt, plan)
    case Overridden => Override(s, s.burned, kt, plan)
    case Resealed => Reseal(s, plan)
  }

  /** The state after a sequence of flows, whether or not each one completed. */
  function Lifetime(s: State, es: seq<Event>, kt: KeyType, plan: FaultPlan): State
    decreases |es|
  {
    if es == [] then s else Lifetime(Step(s, es[0], kt, plan).state, es[1..], kt, plan)
  }

  predicate AllComplete(s: State, es: seq<Event>, kt: KeyType, plan: FaultPlan)
    decreases |es|
  {
    es == [] ||
    (Step(s, es[0], kt, plan).ok && AllComplete(Step(s, es[0], kt, plan).state, es[1..], kt, plan))
  }
}
