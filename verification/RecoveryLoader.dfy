/** load_flash_image_to_recovery: the loop over the state machine and its context. */
module RecoveryLoader {
  import opened Words
  import opened Wrappers
  import opened FlashFormat
  import opened FlashLookup
  import opened Recovery

  lemma {:induction false} HaltedStays(flash: Bytes, find: Finder, m: Machine, answers: seq<Answer>)
    requires Halted(m)
    ensures Resume(flash, find, m, answers) == m
    decreases answers
  {
    if answers != [] { HaltedStays(flash, find, m, answers[1..]); }
  }

  class Loader {
    const flash: Bytes
    var phase: Phase
    var index: nat
    var region: Region
    var transferred: nat
    var log: seq<Event>
    ghost var activated: seq<nat>

    ghost function View(): Machine
      reads this
    {
      Machine(phase, index, region, transferred, log, activated)
    }

    constructor (flash: Bytes)
      ensures View() == START && this.flash == flash
    {
      this.flash := flash;
      phase, index, region, transferred := ReadProtCap, 0, Region(0, 0), 0;
      log, activated := [], [];
    }

    /** The guard has passed: pick the image, find it, announce its length. */
    method SelectImage(a: Answer)
      modifies this
      ensures View() == Select(flash, Finding(flash), old(View()), a)
    {
      index := ImageIndexOf(a.recoveryStatus);
      log := log + [Begin(index)];
      var id := ImageId(index);
      if id.None? || !a.flashWorks {
        phase := NoImage;
        return;
      }
      var found := GetFlashImageInfo(flash, id.value);
      if found.None? {
        phase := NoImage;
        return;
      }
      phase, region, transferred := TransferringImage, found.value, 0;
      log := log + [Announce(region.size / 4)];
    }

    /** A dword at a time from a 256-byte read. */
    method PushDwords(data: Bytes, n: nat)
      requires |data| == CHUNK && n <= CHUNK
      modifies this`log
      ensures 4 * Dwords(n) <= |data| && log == old(log) + Pushes(data, 0, n)
    {
      ChunkDwords(n);
      for k := 0 to Dwords(n)
        invariant log == old(log) + Pushes(data, 0, n)[..k]
      {
        log := log + [Push(Get32(data, 4 * k))];
      }
    }

    method TransferChunk(a: Answer)
      modifies this
      ensures View() == Transfer(flash, old(View()), a)
    {
      if transferred >= region.size {
        log := log + [PayloadDone];
        phase := WaitForRecoveryPending;
      } else if a.fifoEmpty {
        var at := region.offset + transferred;
        if !a.flashWorks || at + CHUNK > |flash| {
          phase := ReadFailed;
          return;
        }
        var process := Min(region.size - transferred, CHUNK);
        PushDwords(flash[at..at + CHUNK], process);
        PushesSlice(flash, at, process);
        transferred := transferred + process;
      }
    }

    /** One pass of the loop. */
    method Pass(a: Answer)
      modifies this
      ensures View() == Step(flash, Finding(flash), old(View()), a)
    {
      match phase
      case ReadProtCap =>
        if DeviceStatusSupported(a.protCap) { phase := ReadDeviceStatus; }
      case ReadDeviceStatus =>
        var status := DeviceStatusOf(a.deviceStatus);
        if status == DEVICE_HEALTHY { phase := Done; }
        else if status == RECOVERY_MODE { phase := WaitForRecoveryStatus; }
      case WaitForRecoveryStatus =>
        if RecoveryStatusOf(a.recoveryStatus) == AWAITING_IMAGE { SelectImage(a); }
      case TransferringImage =>
        TransferChunk(a);
      case WaitForRecoveryPending =>
        if DeviceStatusOf(a.deviceStatus) == RECOVERY_PENDING { phase := Activate; }
      case Activate =>
        log := log + [ActivateImage];
        activated := activated + [index];
        phase := CheckFwActivation;
      case CheckFwActivation =>
        if RecoveryStatusOf(a.recoveryStatus) == BOOTING_IMAGE { phase := ActivateCheckRecoveryStatus; }
      case ActivateCheckRecoveryStatus =>
        var status := RecoveryStatusOf(a.recoveryStatus);
        if status == AWAITING_IMAGE { phase := ReadDeviceStatus; }
        else if status == BOOTING_IMAGE && ImageIndexOf(a.recoveryStatus) == MCU_IMG_INDEX { phase := Done; }
      case _ =>
    }

    /** The whole loop, for as many passes as there are answers; true on Done, false on an
        error, None while still waiting. */
    method Load(answers: seq<Answer>) returns (ok: Option<bool>)
      requires View() == START
      modifies this
      ensures View() == Run(flash, Finding(flash), answers)
      ensures ok == if phase == Done then Some(true) else if Halted(View()) then Some(false) else None
    {
      for i := 0 to |answers|
        invariant Run(flash, Finding(flash), answers) == Resume(flash, Finding(flash), View(), answers[i..])
      {
        if phase in {Done, NoImage, ReadFailed} {
          HaltedStays(flash, Finding(flash), View(), answers[i..]);
          break;
        }
        Pass(answers[i]);
        assert answers[i..][1..] == answers[i + 1..];
      }
      ok := if phase == Done then Some(true) else if phase in {NoImage, ReadFailed} then Some(false) else None;
    }
  }

  lemma PushesSlice(flash: Bytes, at: nat, n: nat)
    requires at + CHUNK <= |flash| && n <= CHUNK && 4 * Dwords(n) <= CHUNK
    ensures Pushes(flash[at..at + CHUNK], 0, n) == Pushes(flash, at, n)
  {
  }
}
