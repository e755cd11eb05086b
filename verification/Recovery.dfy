/**
 Streaming flash images to the recovery interface (rom/src/recovery.rs): a state machine
 driven by register reads, and the register writes it makes.
 */
module Recovery {
  import opened Words
  import opened Wrappers
  import opened FlashFormat
  import opened FlashLookup

  const CHUNK := 256

  /** What one pass of the loop finds in the registers, and whether the flash driver works. */
  datatype Answer = Answer(protCap: u32, deviceStatus: u32, recoveryStatus: u32, fifoEmpty: bool, flashWorks: bool)

  datatype Event = Begin(index: nat) | Announce(dwords: nat) | Push(word: u32) | PayloadDone | ActivateImage

  datatype Phase =
    | ReadProtCap | ReadDeviceStatus | WaitForRecoveryStatus | TransferringImage | WaitForRecoveryPending
    | Activate | CheckFwActivation | ActivateCheckRecoveryStatus | Done
    | NoImage | ReadFailed

  /** `activated` is a history variable: the index selected for each activation so far. */
  datatype Machine = Machine(
    phase: Phase, index: nat, region: Region, transferred: nat, log: seq<Event>, activated: seq<nat>)

  const START := Machine(ReadProtCap, 0, Region(0, 0), 0, [], [])

  predicate Halted(m: Machine) { m.phase in {Done, NoImage, ReadFailed} }

  // ----- guards -----

  predicate DeviceStatusSupported(protCap: u32) { protCap / 0x10_0000 % 2 == 1 }

  function DeviceStatusOf(r: u32): nat { r % 0x100 }

  function RecoveryStatusOf(r: u32): nat { r % 0x10 }

  function ImageIndexOf(r: u32): nat { r / 0x10 % 0x10 }

  const DEVICE_HEALTHY := 1
  const RECOVERY_MODE := 3
  const RECOVERY_PENDING := 4
  const AWAITING_IMAGE := 1
  const BOOTING_IMAGE := 2
  const MCU_IMG_INDEX := 2

  /** recovery_img_index_to_image_id: Caliptra firmware, SoC manifest, MCU runtime. */
  function ImageId(index: nat): Option<u32> {
    if index <= 2 then Some(index) else None
  }

  /** Where the image with a given index is, if it is in flash. */
  type Finder = nat -> Option<Region>

  function Finding(flash: Bytes): Finder {
    (index: nat) =>
      match ImageId(index)
      case None => None
      case Some(id) => Lookup(flash, id)
  }

  // ----- one pass of the loop -----

  function Dwords(n: nat): nat { (n + 3) / 4 }

  /** n bytes of flash as the words written to the data port. */
  function Pushes(flash: Bytes, at: nat, n: nat): seq<Event>
    requires at + 4 * Dwords(n) <= |flash|
  {
    seq(Dwords(n), k requires 0 <= k < Dwords(n) => Push(Get32(flash, at + 4 * k)))
  }

  function Select(flash: Bytes, find: Finder, m: Machine, a: Answer): Machine {
    var index := ImageIndexOf(a.recoveryStatus);
    var begun := m.(index := index, log := m.log + [Begin(index)]);
    if !a.flashWorks then begun.(phase := NoImage)
    else match find(index)
      case None => begun.(phase := NoImage)
      case Some(r) =>
        begun.(phase := TransferringImage, region := r, transferred := 0, log := begun.log + [Announce(r.size / 4)])
  }

  function Transfer(flash: Bytes, m: Machine, a: Answer): Machine {
    if m.transferred >= m.region.size then
      m.(phase := WaitForRecoveryPending, log := m.log + [PayloadDone])
    else if !a.fifoEmpty then m
    else if !a.flashWorks || m.region.offset + m.transferred + CHUNK > |flash| then m.(phase := ReadFailed)
    else Pushed(flash, m)
  }

  /** At most 256 bytes, a dword at a time. */
  function Pushed(flash: Bytes, m: Machine): Machine
    requires m.transferred < m.region.size && m.region.offset + m.transferred + CHUNK <= |flash|
  {
    var n := Min(m.region.size - m.transferred, CHUNK);
    m.(transferred := m.transferred + n, log := m.log + Pushes(flash, m.region.offset + m.transferred, n))
  }

  function Step(flash: Bytes, find: Finder, m: Machine, a: Answer): Machine {
    match m.phase
    case ReadProtCap => if DeviceStatusSupported(a.protCap) then m.(phase := ReadDeviceStatus) else m
    case ReadDeviceStatus =>
      var status := DeviceStatusOf(a.deviceStatus);
      if status == DEVICE_HEALTHY then m.(phase := Done)
      else if status == RECOVERY_MODE then m.(phase := WaitForRecoveryStatus)
      else m
    case WaitForRecoveryStatus =>
      if RecoveryStatusOf(a.recoveryStatus) == AWAITING_IMAGE then Select(flash, find, m, a) else m
    case TransferringImage => Transfer(flash, m, a)
    case WaitForRecoveryPending =>
      if DeviceStatusOf(a.deviceStatus) == RECOVERY_PENDING then m.(phase := Activate) else m
    case Activate =>
      m.(phase := CheckFwActivation, log := m.log + [ActivateImage], activated := m.activated + [m.index])
    case CheckFwActivation =>
      if RecoveryStatusOf(a.recoveryStatus) == BOOTING_IMAGE then m.(phase := ActivateCheckRecoveryStatus) else m
    case ActivateCheckRecoveryStatus =>
      var status := RecoveryStatusOf(a.recoveryStatus);
      if status == AWAITING_IMAGE then m.(phase := ReadDeviceStatus)
      else if status == BOOTING_IMAGE && ImageIndexOf(a.recoveryStatus) == MCU_IMG_INDEX then m.(phase := Done)
      else m
    case _ => m
  }

  function Resume(flash: Bytes, find: Finder, m: Machine, answers: seq<Answer>): Machine
    decreases answers
  {
    if answers == [] then m else Resume(flash, find, Step(flash, find, m, answers[0]), answers[1..])
  }

  function Run(flash: Bytes, find: Finder, answers: seq<Answer>): Machine {
    Resume(flash, find, START, answers)
  }

  // ----- what the register writes must look like -----

  /** The image is found, and the 256-byte reads that cover it stay inside the partition. */
  predicate Streamable(flash: Bytes, find: Finder, index: nat) {
    && find(index).Some?
    && var r := find(index).value;
    r.size > 0 ==> r.offset + Covered(r.size) <= |flash|
  }

  function Covered(n: nat): nat { (n + 255) / CHUNK * CHUNK }

  lemma DwordsCovered(n: nat)
    ensures 4 * Dwords(n) <= Covered(n) && n <= 4 * Dwords(n) < n + 4 && Covered(n) < n + CHUNK
  {
    var q, c := (n + 3) / 4, (n + 255) / 256;
    assert 4 * q <= n + 3 < 4 * q + 4;
    assert 256 * c <= n + 255 < 256 * c + 256;
    assert q <= 64 * c;
  }

  function Opening(index: nat, r: Region): seq<Event> { [Begin(index), Announce(r.size / 4)] }

  predicate Fits(flash: Bytes, r: Region, n: nat) {
    n > 0 ==> r.offset + 4 * Dwords(n) <= |flash|
  }

  /** The opening and the first n bytes of an image. */
  function Partial(flash: Bytes, index: nat, r: Region, n: nat): seq<Event>
    requires Fits(flash, r, n)
  {
    Opening(index, r) + if n == 0 then [] else Pushes(flash, r.offset, n)
  }

  /** A complete transfer of the image with this index. */
  function Sent(flash: Bytes, find: Finder, index: nat): seq<Event>
    requires Streamable(flash, find, index)
  {
    var r := find(index).value;
    DwordsCovered(r.size);
    Partial(flash, index, r, r.size) + [PayloadDone]
  }

  /** Complete transfers, each followed by its activation. */
  function Rounds(flash: Bytes, find: Finder, indices: seq<nat>): seq<Event>
    requires forall i | 0 <= i < |indices| :: Streamable(flash, find, indices[i])
  {
    if indices == [] then []
    else
      var n := |indices| - 1;
      Rounds(flash, find, indices[..n]) + Sent(flash, find, indices[n]) + [ActivateImage]
  }

  /** Where a transfer can be: within the image, at a chunk boundary unless finished. */
  predicate Reached(flash: Bytes, r: Region, t: nat) {
    && t <= r.size && (t < r.size ==> t % CHUNK == 0)
    && (t > 0 ==> r.offset + Covered(t) <= |flash|)
  }

  /** The log of an open transfer that has sent t bytes. */
  ghost predicate Sending(flash: Bytes, index: nat, r: Region, t: nat, log: seq<Event>, before: seq<Event>) {
    Reached(flash, r, t) && Fits(flash, r, t) && log == before + Partial(flash, index, r, t)
  }

  ghost predicate Transferring(flash: Bytes, find: Finder, m: Machine, before: seq<Event>) {
    && find(m.index) == Some(m.region)
    && Sending(flash, m.index, m.region, m.transferred, m.log, before)
  }

  ghost predicate Inv(flash: Bytes, find: Finder, m: Machine) {
    && (forall i | 0 <= i < |m.activated| :: Streamable(flash, find, m.activated[i]))
    && var before := Rounds(flash, find, m.activated);
    match m.phase
    case TransferringImage => Transferring(flash, find, m, before)
    case ReadFailed => Transferring(flash, find, m, before)
    case NoImage => m.log == before + [Begin(m.index)]
    case WaitForRecoveryPending => Streamable(flash, find, m.index) && m.log == before + Sent(flash, find, m.index)
    case Activate => Streamable(flash, find, m.index) && m.log == before + Sent(flash, find, m.index)
    case _ => m.log == before
  }

  lemma SelectKeeps(flash: Bytes, find: Finder, m: Machine, a: Answer)
    requires Inv(flash, find, m) && m.phase == WaitForRecoveryStatus
    ensures Inv(flash, find, Select(flash, find, m, a))
  {
    var next := Select(flash, find, m, a);
    if next.phase == TransferringImage {
      assert next.log == m.log + Partial(flash, next.index, next.region, 0);
    }
  }

  lemma PushesJoin(flash: Bytes, at: nat, t: nat, n: nat)
    requires t % CHUNK == 0 && at + t + 4 * Dwords(n) <= |flash|
    ensures Dwords(t + n) == t / 4 + Dwords(n) && Dwords(t) == t / 4
    ensures Pushes(flash, at, t + n) == Pushes(flash, at, t) + Pushes(flash, at + t, n)
  {
    var c := t / 4;
    DwordsJoin(t, n);
    var all, front, back := Pushes(flash, at, t + n), Pushes(flash, at, t), Pushes(flash, at + t, n);
    assert |all| == |front + back|;
    forall k | 0 <= k < |all|
      ensures all[k] == (front + back)[k]
    {
      assert at + 4 * k == at + t + 4 * (k - c);
    }
  }

  lemma DwordsJoin(t: nat, n: nat)
    requires t % CHUNK == 0
    ensures Dwords(t + n) == t / 4 + Dwords(n) && Dwords(t) == t / 4 && t == 4 * (t / 4)
  {
    var q := t / CHUNK;
    assert t == 4 * (64 * q);
  }

  lemma ChunkCovered(t: nat, left: nat)
    requires t % CHUNK == 0 && left > 0
    ensures Covered(t + Min(left, CHUNK)) == t + CHUNK
    ensures left > CHUNK ==> (t + CHUNK) % CHUNK == 0
  {
  }

  lemma FitsJoin(flash: Bytes, r: Region, t: nat, n: nat)
    requires t % CHUNK == 0 && r.offset + t + 4 * Dwords(n) <= |flash|
    ensures r.offset + 4 * Dwords(t) <= |flash| && r.offset + 4 * Dwords(t + n) <= |flash|
  {
    DwordsJoin(t, n);
  }

  lemma PartialSome(flash: Bytes, index: nat, r: Region, n: nat)
    requires n > 0 && r.offset + 4 * Dwords(n) <= |flash|
    ensures Partial(flash, index, r, n) == Opening(index, r) + Pushes(flash, r.offset, n)
  {
  }

  lemma PartialGrows(flash: Bytes, index: nat, r: Region, t: nat, n: nat)
    requires t % CHUNK == 0 && n > 0 && r.offset + t + 4 * Dwords(n) <= |flash|
    ensures Fits(flash, r, t) && Fits(flash, r, t + n)
    ensures Partial(flash, index, r, t + n) == Partial(flash, index, r, t) + Pushes(flash, r.offset + t, n)
  {
    FitsJoin(flash, r, t, n);
    PartialSome(flash, index, r, t + n);
    if t > 0 {
      PartialSome(flash, index, r, t);
      PushesJoin(flash, r.offset, t, n);
      Reassociate(Opening(index, r), Pushes(flash, r.offset, t), Pushes(flash, r.offset + t, n));
    }
  }

  lemma ReachNext(flash: Bytes, r: Region, t: nat, n: nat)
    requires Reached(flash, r, t) && t < r.size && n == Min(r.size - t, CHUNK) && r.offset + t + CHUNK <= |flash|
    ensures t % CHUNK == 0 && n > 0 && r.offset + t + 4 * Dwords(n) <= |flash|
    ensures Reached(flash, r, t + n)
  {
    ChunkCovered(t, r.size - t);
    ChunkDwords(n);
  }

  lemma LogNext(flash: Bytes, index: nat, r: Region, t: nat, n: nat, before: seq<Event>)
    requires t % CHUNK == 0 && n > 0 && r.offset + t + 4 * Dwords(n) <= |flash|
    ensures Fits(flash, r, t) && Fits(flash, r, t + n)
    ensures before + Partial(flash, index, r, t) + Pushes(flash, r.offset + t, n)
         == before + Partial(flash, index, r, t + n)
  {
    PartialGrows(flash, index, r, t, n);
    Reassociate(before, Partial(flash, index, r, t), Pushes(flash, r.offset + t, n));
  }

  lemma SendNext(flash: Bytes, index: nat, r: Region, t: nat, n: nat, log: seq<Event>, before: seq<Event>)
    requires Sending(flash, index, r, t, log, before)
    requires t < r.size && n == Min(r.size - t, CHUNK) && r.offset + t + CHUNK <= |flash|
    ensures r.offset + t + 4 * Dwords(n) <= |flash|
    ensures Sending(flash, index, r, t + n, log + Pushes(flash, r.offset + t, n), before)
  {
    ReachNext(flash, r, t, n);
    LogNext(flash, index, r, t, n, before);
  }

  /** The new machine, field by field. */
  lemma PushedFields(flash: Bytes, m: Machine, n: nat)
    requires m.transferred < m.region.size && m.region.offset + m.transferred + CHUNK <= |flash|
    requires n == Min(m.region.size - m.transferred, CHUNK)
    ensures m.region.offset + m.transferred + 4 * Dwords(n) <= |flash|
    ensures Pushed(flash, m) == m.(
      transferred := m.transferred + n, log := m.log + Pushes(flash, m.region.offset + m.transferred, n))
  {
    ChunkDwords(n);
  }

  lemma PushKeeps(flash: Bytes, find: Finder, m: Machine, before: seq<Event>)
    requires Transferring(flash, find, m, before)
    requires m.transferred < m.region.size && m.region.offset + m.transferred + CHUNK <= |flash|
    ensures Transferring(flash, find, Pushed(flash, m), before)
  {
    var n := Min(m.region.size - m.transferred, CHUNK);
    PushedFields(flash, m, n);
    SendNext(flash, m.index, m.region, m.transferred, n, m.log, before);
  }

  lemma ChunkDwords(n: nat)
    requires n <= CHUNK
    ensures 4 * Dwords(n) <= CHUNK
  {
  }

  lemma Reassociate(a: seq<Event>, b: seq<Event>, c: seq<Event>)
    ensures a + b + c == a + (b + c)
  {
  }

  lemma FinishKeeps(flash: Bytes, find: Finder, m: Machine, before: seq<Event>)
    requires Transferring(flash, find, m, before) && m.transferred >= m.region.size
    ensures Streamable(flash, find, m.index) && m.log + [PayloadDone] == before + Sent(flash, find, m.index)
  {
  }

  lemma TransferKeeps(flash: Bytes, find: Finder, m: Machine, a: Answer)
    requires Inv(flash, find, m) && m.phase == TransferringImage
    ensures Inv(flash, find, Transfer(flash, m, a))
  {
    var before := Rounds(flash, find, m.activated);
    if m.transferred >= m.region.size {
      FinishKeeps(flash, find, m, before);
    } else if a.fifoEmpty && a.flashWorks && m.region.offset + m.transferred + CHUNK <= |flash| {
      PushKeeps(flash, find, m, before);
    }
  }

  lemma ActivateKeeps(flash: Bytes, find: Finder, m: Machine, a: Answer)
    requires Inv(flash, find, m) && m.phase == Activate
    ensures Inv(flash, find, Step(flash, find, m, a))
  {
    assert (m.activated + [m.index])[..|m.activated|] == m.activated;
  }

  lemma WaitKeeps(flash: Bytes, find: Finder, m: Machine, a: Answer)
    requires Inv(flash, find, m) && m.phase in {WaitForRecoveryPending, CheckFwActivation, ActivateCheckRecoveryStatus}
    ensures Inv(flash, find, Step(flash, find, m, a))
  {
  }

  /** Every pass of the loop keeps the log a series of complete rounds and an open one. */
  lemma StepKeeps(flash: Bytes, find: Finder, m: Machine, a: Answer)
    requires Inv(flash, find, m)
    ensures Inv(flash, find, Step(flash, find, m, a))
  {
    if m.phase == WaitForRecoveryStatus {
      if RecoveryStatusOf(a.recoveryStatus) == AWAITING_IMAGE { SelectKeeps(flash, find, m, a); }
    } else if m.phase == TransferringImage {
      TransferKeeps(flash, find, m, a);
    } else if m.phase == Activate {
      ActivateKeeps(flash, find, m, a);
    } else if !Halted(m) && m.phase !in {ReadProtCap, ReadDeviceStatus} {
      WaitKeeps(flash, find, m, a);
    }
  }

  lemma {:induction false} ResumeKeeps(flash: Bytes, find: Finder, m: Machine, answers: seq<Answer>)
    requires Inv(flash, find, m)
    ensures Inv(flash, find, Resume(flash, find, m, answers))
    decreases answers
  {
    if answers != [] {
      StepKeeps(flash, find, m, answers[0]);
      ResumeKeeps(flash, find, Step(flash, find, m, answers[0]), answers[1..]);
    }
  }

  // ----- whole runs -----

  ghost predicate NoActivation(log: seq<Event>) { forall k | 0 <= k < |log| :: log[k] != ActivateImage }

  lemma SentNoActivation(flash: Bytes, find: Finder, index: nat)
    requires Streamable(flash, find, index)
    ensures NoActivation(Sent(flash, find, index))
  {
  }

  lemma {:induction false} RoundsActivation(flash: Bytes, find: Finder, indices: seq<nat>, k: nat)
    returns (start: nat, index: nat)
    requires forall i | 0 <= i < |indices| :: Streamable(flash, find, indices[i])
    requires k < |Rounds(flash, find, indices)| && Rounds(flash, find, indices)[k] == ActivateImage
    ensures start <= k && Streamable(flash, find, index)
    ensures Rounds(flash, find, indices)[start..k] == Sent(flash, find, index)
  {
    var n := |indices| - 1;
    var earlier := Rounds(flash, find, indices[..n]);
    if k < |earlier| {
      start, index := RoundsActivation(flash, find, indices[..n], k);
      RoundSlices(earlier, Sent(flash, find, indices[n]), start, k);
    } else {
      SentNoActivation(flash, find, indices[n]);
      start, index := |earlier|, indices[n];
      LastRound(earlier, Sent(flash, find, index), k);
    }
  }

  lemma RoundSlices(earlier: seq<Event>, sent: seq<Event>, start: nat, k: nat)
    requires start <= k <= |earlier|
    ensures (earlier + sent + [ActivateImage])[start..k] == earlier[start..k]
  {
  }

  lemma LastRound(earlier: seq<Event>, sent: seq<Event>, k: nat)
    requires NoActivation(sent) && |earlier| <= k <= |earlier| + |sent|
    requires (earlier + sent + [ActivateImage])[k] == ActivateImage
    ensures (earlier + sent + [ActivateImage])[|earlier|..k] == sent
  {
  }

  lemma OpenNoActivation(flash: Bytes, find: Finder, m: Machine)
    requires Inv(flash, find, m)
    ensures var before := Rounds(flash, find, m.activated);
            before <= m.log && forall k | |before| <= k < |m.log| :: m.log[k] != ActivateImage
  {
  }

  /** In every run, whatever the registers answer, an activation directly follows a complete
      transfer of the image selected last: its opening, all its dwords in order, payload done. */
  lemma ActivationFollowsTransfer(flash: Bytes, find: Finder, answers: seq<Answer>, k: nat)
    returns (start: nat, index: nat)
    requires k < |Run(flash, find, answers).log| && Run(flash, find, answers).log[k] == ActivateImage
    ensures start <= k && Streamable(flash, find, index)
    ensures Run(flash, find, answers).log[start..k] == Sent(flash, find, index)
  {
    var m := Run(flash, find, answers);
    ResumeKeeps(flash, find, START, answers);
    OpenNoActivation(flash, find, m);
    var before := Rounds(flash, find, m.activated);
    start, index := RoundsActivation(flash, find, m.activated, k);
    assert m.log[start..k] == before[start..k];
  }

  /** The transfer offset never passes the image size, and the address read never overflows
      32 bits in a partition that has 32-bit addresses. */
  lemma TransferInBounds(flash: Bytes, find: Finder, answers: seq<Answer>)
    requires |flash| < 0x1_0000_0000
    ensures var m := Run(flash, find, answers);
            m.phase == TransferringImage ==>
              m.transferred <= m.region.size && m.region.offset + m.transferred < 0x1_0000_0000
  {
    ResumeKeeps(flash, find, START, answers);
    var m := Run(flash, find, answers);
    if m.phase == TransferringImage { DwordsCovered(m.transferred); }
  }

  ghost predicate Willing(answers: seq<Answer>) {
    forall i | 0 <= i < |answers| :: answers[i].fifoEmpty && answers[i].flashWorks
  }

  lemma CoveredStep(size: nat, t: nat)
    requires t < size && t % CHUNK == 0
    ensures t + CHUNK <= Covered(size)
  {
  }

  /** Once selected, a streamable image is sent completely in one pass per chunk and one more. */
  lemma {:induction false} TransferCompletes(flash: Bytes, find: Finder, m: Machine, answers: seq<Answer>)
    requires Inv(flash, find, m) && m.phase == TransferringImage && Streamable(flash, find, m.index)
    requires Willing(answers) && |answers| == (m.region.size - m.transferred + 255) / CHUNK + 1
    ensures var last := Resume(flash, find, m, answers);
            && last.phase == WaitForRecoveryPending && last.index == m.index && last.activated == m.activated
            && Inv(flash, find, last)
            && last.log == Rounds(flash, find, m.activated) + Sent(flash, find, m.index)
    decreases m.region.size - m.transferred
  {
    var next := Step(flash, find, m, answers[0]);
    StepKeeps(flash, find, m, answers[0]);
    if m.transferred < m.region.size {
      CoveredStep(m.region.size, m.transferred);
      TransferCompletes(flash, find, next, answers[1..]);
    } else {
      assert answers[1..] == [];
      assert Resume(flash, find, next, []) == next;
    }
  }

  // ----- which images some run can send -----

  /** These answers bring the machine to the end of the transfer of image `index`. */
  ghost predicate Completed(flash: Bytes, find: Finder, index: nat, answers: seq<Answer>) {
    var m := Run(flash, find, answers);
    m.phase == WaitForRecoveryPending && m.index == index
  }

  ghost predicate Completes(flash: Bytes, find: Finder, index: nat) {
    exists answers :: Completed(flash, find, index, answers)
  }

  /** A device in recovery that asks for this image and takes everything. */
  function Eager(index: nat): Answer
    requires index < 0x10
  {
    Answer(0x10_0000, RECOVERY_MODE, AWAITING_IMAGE + 0x10 * index, true, true)
  }

  function Opened(index: nat, r: Region): Machine {
    Machine(TransferringImage, index, r, 0, Opening(index, r), [])
  }

  lemma OpenedSteps(flash: Bytes, find: Finder, index: nat, r: Region)
    requires index < 0x10 && find(index) == Some(r)
    ensures var a := Eager(index);
            Step(flash, find, Step(flash, find, Step(flash, find, START, a), a), a) == Opened(index, r)
  {
    var a := Eager(index);
    assert ImageIndexOf(a.recoveryStatus) == index && RecoveryStatusOf(a.recoveryStatus) == AWAITING_IMAGE;
    assert Step(flash, find, START, a) == START.(phase := ReadDeviceStatus);
    var waiting := START.(phase := WaitForRecoveryStatus);
    assert Step(flash, find, START.(phase := ReadDeviceStatus), a) == waiting;
    assert Step(flash, find, waiting, a) == Select(flash, find, waiting, a);
  }

  lemma ResumeFirst(flash: Bytes, find: Finder, m: Machine, a: Answer, answers: seq<Answer>)
    ensures Resume(flash, find, m, [a] + answers) == Resume(flash, find, Step(flash, find, m, a), answers)
  {
    assert ([a] + answers)[1..] == answers;
  }

  lemma ResumeThree(flash: Bytes, find: Finder, m: Machine, a: Answer, answers: seq<Answer>)
    ensures Resume(flash, find, m, [a] + ([a] + ([a] + answers)))
         == Resume(flash, find, Step(flash, find, Step(flash, find, Step(flash, find, m, a), a), a), answers)
  {
    var m1 := Step(flash, find, m, a);
    ResumeFirst(flash, find, m, a, [a] + ([a] + answers));
    ResumeFirst(flash, find, m1, a, [a] + answers);
    ResumeFirst(flash, find, Step(flash, find, m1, a), a, answers);
  }

  lemma StreamableCompletes(flash: Bytes, find: Finder, index: nat)
    requires index < 0x10 && Streamable(flash, find, index)
    ensures Completes(flash, find, index)
  {
    var r, a := find(index).value, Eager(index);
    var rest := seq((r.size + 255) / CHUNK + 1, _ => a);
    var m := Opened(index, r);
    OpenedSteps(flash, find, index, r);
    ResumeThree(flash, find, START, a, rest);
    assert m.log == [] + Partial(flash, index, r, 0);
    TransferCompletes(flash, find, m, rest);
    assert Completed(flash, find, index, [a] + ([a] + ([a] + rest)));
  }

  /** Some sequence of register answers gets an image sent completely, if and only if the image
      is there and the 256-byte reads that cover it stay inside the partition. */
  lemma CompletesIff(flash: Bytes, find: Finder, index: nat)
    requires index < 0x10
    ensures Completes(flash, find, index) <==> Streamable(flash, find, index)
  {
    if Streamable(flash, find, index) {
      StreamableCompletes(flash, find, index);
    } else {
      forall answers
        ensures !Completed(flash, find, index, answers)
      {
        ResumeKeeps(flash, find, START, answers);
      }
    }
  }

  // ----- what a complete transfer carries -----

  /** The announced FIFO length is the number of dwords sent exactly for whole-dword images. */
  lemma AnnouncedExact(flash: Bytes, find: Finder, index: nat)
    requires Streamable(flash, find, index)
    ensures var r, log := find(index).value, Sent(flash, find, index);
            && |log| == 3 + Dwords(r.size)
            && log[0] == Begin(index) && log[1] == Announce(r.size / 4) && log[|log| - 1] == PayloadDone
            && (r.size / 4 == Dwords(r.size) <==> r.size % 4 == 0)
  {
  }

  lemma PushByte(flash: Bytes, at: nat, n: nat, k: nat)
    requires at + 4 * Dwords(n) <= |flash| && k < n
    ensures k / 4 < Dwords(n) && at + k < |flash|
    ensures ByteOf(Pushes(flash, at, n)[k / 4].word, k % 4) == flash[at + k]
  {
    var i := at + 4 * (k / 4);
    BytesRoundTrip(flash[i], flash[i + 1], flash[i + 2], flash[i + 3]);
  }

  lemma SentPush(flash: Bytes, find: Finder, index: nat, j: nat)
    requires Streamable(flash, find, index) && j < Dwords(find(index).value.size)
    ensures var r := find(index).value;
            && r.offset + 4 * Dwords(r.size) <= |flash|
            && Sent(flash, find, index)[2 + j] == Pushes(flash, r.offset, r.size)[j]
  {
    DwordsCovered(find(index).value.size);
  }

  /** Byte k of the image is byte k % 4 of dword k / 4. */
  lemma SentCarries(flash: Bytes, find: Finder, index: nat, k: nat)
    requires Streamable(flash, find, index) && k < find(index).value.size
    ensures var r, log := find(index).value, Sent(flash, find, index);
            && r.offset + k < |flash|
            && log[2 + k / 4].Push? && ByteOf(log[2 + k / 4].word, k % 4) == flash[r.offset + k]
  {
    var r := find(index).value;
    DwordsCovered(r.size);
    PushByte(flash, r.offset, r.size, k);
    SentPush(flash, find, index, k / 4);
  }

  /** The complete transfer announces and spells exactly this data. */
  ghost predicate Delivers(log: seq<Event>, index: nat, data: Bytes) {
    && |log| == 3 + |data| / 4 && |data| % 4 == 0
    && log[0] == Begin(index) && log[1] == Announce(|data| / 4) && log[|log| - 1] == PayloadDone
    && forall k | 0 <= k < |data| :: log[2 + k / 4].Push? && ByteOf(log[2 + k / 4].word, k % 4) == data[k]
  }

  lemma SentByte(flash: Bytes, find: Finder, index: nat, data: Bytes, k: nat)
    requires Streamable(flash, find, index) && k < |data|
    requires var r := find(index).value;
             r.size == |data| && r.offset + r.size <= |flash| && flash[r.offset..r.offset + r.size] == data
    ensures var log := Sent(flash, find, index);
            2 + k / 4 < |log| && log[2 + k / 4].Push? && ByteOf(log[2 + k / 4].word, k % 4) == data[k]
  {
    SentCarries(flash, find, index, k);
  }

  lemma SentDelivers(flash: Bytes, find: Finder, index: nat, data: Bytes)
    requires Streamable(flash, find, index) && |data| % 4 == 0
    requires var r := find(index).value;
             r.size == |data| && r.offset + r.size <= |flash| && flash[r.offset..r.offset + r.size] == data
    ensures Delivers(Sent(flash, find, index), index, data)
  {
    AnnouncedExact(flash, find, index);
    var log := Sent(flash, find, index);
    forall k | 0 <= k < |data|
      ensures log[2 + k / 4].Push? && ByteOf(log[2 + k / 4].word, k % 4) == data[k]
    {
      SentByte(flash, find, index, data, k);
    }
  }
}
